/** Several heaps used as one (memory/heap/multiheap.c): allocation from the first heap
    that fits, and the second pass, which backs a contiguous virtual range with scattered
    blocks. */
module MultiHeap {
  import opened Common
  import opened BlockTable
  import opened HeapRuns
  import opened HeapAsWritten
  import opened BlockHeap
  import opened PageTable
  import opened Paging
  import opened MappedRanges

  /** One element of the list of heaps; `paging` is NULL for a heap without the
      DEFRAGMENT_WITH_PAGING flag and until `multiheap_ready`. */
  datatype Node = Node(heap: Heap, paging: Heap?, allowsPaging: bool)

  ghost predicate Inside(h: Heap?, repr: set<object>) {
    h != null ==> h in repr && h.entries in repr && h.data in repr
  }

  /** No two of these heaps share memory. */
  ghost predicate Apart(h: Heap?, k: Heap?) {
    h != null && k != null ==>
      && h != k && h.entries != k.entries && h.data != k.data
      && h.entries as object != k.data as object && h.data as object != k.entries as object
  }

  /** The free count of a heap is what its table says. */
  ghost predicate CountsExact(h: Heap)
    reads h, h.entries
  {
    h.freeBlocks == h.entries.Length - Used(h.entries[..])
  }

  lemma PositiveStart(h: Heap)
    requires h.Sane()
    ensures 0 < h.saddr
  {
  }

  /** Blocks of the heaps that allow paging. */
  function PagingBlocks(nodes: seq<Node>): nat {
    if nodes == [] then 0
    else (if nodes[0].allowsPaging then nodes[0].heap.entries.Length else 0) + PagingBlocks(nodes[1..])
  }

  lemma WholePages(start: nat, n: nat)
    requires start % PAGE_SIZE == 0 && start + n * PAGE_SIZE <= PAGES * PAGE_SIZE
    ensures (start + n * PAGE_SIZE - start) / PAGE_SIZE == n && (start + n * PAGE_SIZE) % PAGE_SIZE == 0
    ensures start / PAGE_SIZE + n <= PAGES
    ensures start / PAGE_SIZE < PAGES ==> Page(start) == start / PAGE_SIZE
    ensures n > 0 ==> start / PAGE_SIZE < PAGES && Page(start) == start / PAGE_SIZE
  {
  }

  /** The entry that multiheap_ready writes for page `p` points to the page itself. */
  lemma IdentityTarget(was: Entry, start: nat, p: nat)
    requires start % PAGE_SIZE == 0 && start / PAGE_SIZE <= p < PAGES
    ensures Target(Mapped(was, start + (p - start / PAGE_SIZE) * PAGE_SIZE, 0)) == p * PAGE_SIZE
  {
    assert start + (p - start / PAGE_SIZE) * PAGE_SIZE == p * PAGE_SIZE;
  }

  /** heap_create over newly allocated tables. */
  method FreshHeap(saddr: nat, n: nat) returns (heap: Heap)
    requires saddr % BLOCK_SIZE == 0 && 0 < saddr && saddr + n * BLOCK_SIZE < WORD
    ensures fresh(heap) && fresh(heap.entries) && fresh(heap.data) && heap.entries as object != heap.data as object
    ensures heap.Sane() && CountsExact(heap)
    ensures heap.entries.Length == n && heap.saddr == saddr
    ensures heap.entries[..] == seq(n, _ => FREE)
  {
    var entries := new BlockEntry[n];
    var data := new Block[n](_ => ZeroBlock());
    assert entries as object != data as object;
    heap := new Heap(entries, data, saddr);
    FreshUsed(heap.entries[..], n);
  }

  lemma FirstBlocks(nodes: seq<Node>)
    requires nodes != []
    ensures PagingBlocks(nodes) ==
      (if nodes[0].allowsPaging then nodes[0].heap.entries.Length else 0) + PagingBlocks(nodes[1..])
  {
  }

  /** Entries of a heap that are really free. */
  function Room(h: Heap): nat
    reads h, h.entries
  {
    h.entries.Length - Used(h.entries[..])
  }

  /** heap_zalloc of one block: NULL exactly when no entry is free. */
  method ZallocOne(h: Heap) returns (address: nat, ghost b: nat)
    requires h.Sane()
    modifies h, h.entries, h.data
    ensures h.Sane() && (old(CountsExact(h)) ==> CountsExact(h))
    ensures address == 0 <==> old(Room(h)) == 0
    ensures address == 0 ==> h.View() == old(h.View())
    ensures address != 0 ==>
      && b < h.entries.Length && address == h.Address(b) && old(h.entries[..])[b] == FREE
      && h.entries[..] == MarkTaken(old(h.entries[..]), b, 1) && Room(h) == old(Room(h)) - 1
      && h.data[..] == Zeroed(old(h.data[..]), b, 1)
  {
    ghost var before := h.View();
    OneBlockRoom(h);
    OneBlockEither(false, before);
    hide Heap.Sane, Heap.View, FirstFit, MarkTaken, MarkTakenAsWritten, MallocStepAsWritten, Zeroed, Used, Wrap;
    HeapView(h);
    b := 0;
    if FirstFit(before.table, 1) >= 0 {
      b := FirstFit(before.table, 1);
      MarkTakenUsed(before.table, b, 1);
    }
    address := h.ZallocAsWritten(BLOCK_SIZE);
    HeapView(h);
  }

  ghost predicate AllApart(nodes: seq<Node>, repr: set<object>) {
    && (forall i :: 0 <= i < |nodes| ==>
          && Inside(nodes[i].heap, repr) && Inside(nodes[i].paging, repr) && Apart(nodes[i].heap, nodes[i].paging))
    && (forall i, j :: 0 <= i < |nodes| && 0 <= j < |nodes| && i != j ==>
          && Apart(nodes[i].heap, nodes[j].heap) && Apart(nodes[i].heap, nodes[j].paging)
          && Apart(nodes[i].paging, nodes[j].paging))
  }

  /** A new heap keeps apart from all others. */
  lemma AllApartMore(nodes: seq<Node>, repr: set<object>, i: nat, heap: Heap)
    requires AllApart(nodes, repr) && i < |nodes| && heap !in repr && heap.entries !in repr && heap.data !in repr
    requires heap.entries as object != heap.data as object
    ensures AllApart(nodes[i := nodes[i].(paging := heap)], repr + {heap, heap.entries, heap.data})
  {
  }

  class Multi {
    var nodes: seq<Node>
    /** Largest end address of the data heaps; virtual addresses start here. */
    var maxEnd: nat
    const tables: PageTables

    ghost var repr: set<object>

    /** The heaps share no memory with each other or with the page tables. */
    ghost predicate Separate()
      reads this
    {
      this !in repr && tables !in repr && tables as object != this && AllApart(nodes, repr)
    }

    /** What `multiheap_ready` sets up for a heap that allows paging. */
    ghost predicate PagingReady(n: Node)
      reads this, tables, n.paging
    {
      n.allowsPaging ==>
        && n.paging != null
        && n.paging.entries.Length == n.heap.entries.Length
        && n.paging.saddr == maxEnd + n.heap.saddr
        && n.paging.saddr / PAGE_SIZE + n.paging.entries.Length <= PAGES
        && tables.Premapped(n.paging.saddr / PAGE_SIZE, n.paging.entries.Length)
    }

    ghost predicate Valid()
      reads this, tables, repr
    {
      && Separate() && tables.Valid()
      && (forall i :: 0 <= i < |nodes| ==>
            && nodes[i].heap.Sane() && PagingReady(nodes[i])
            && nodes[i].heap.saddr + nodes[i].heap.entries.Length * BLOCK_SIZE < FRAMES * PAGE_SIZE
            && (nodes[i].paging != null ==> nodes[i].paging.Sane()))
    }

    constructor (tables: PageTables)
      requires tables.Valid()
      ensures Valid() && this.tables == tables && nodes == []
    {
      this.tables, nodes, maxEnd, repr := tables, [], 0, {};
    }

    /** Some heap can take `n` blocks in a second pass. */
    ghost predicate Eligible(i: nat, n: nat)
      reads this, repr
      requires Separate() && i < |nodes|
    {
      && nodes[i].allowsPaging && nodes[i].paging != null
      && n <= nodes[i].heap.freeBlocks && FirstFit(nodes[i].paging.entries[..], n) >= 0
    }

    ghost predicate NoneEligible(n: nat)
      reads this, repr
      requires Separate()
    {
      forall i: nat :: i < |nodes| ==> !Eligible(i, n)
    }

    /** The node allows paging, and its heap has `n` blocks and counts that many free. */
    static ghost predicate Promises(node: Node, n: nat)
      reads node.heap
    {
      node.allowsPaging && 0 < n <= node.heap.freeBlocks && n <= node.heap.entries.Length
    }

    /** The heaps are added, `multiheap_ready` has not run. */
    ghost predicate Added()
      reads this, tables, repr
    {
      && Separate() && tables.Valid()
      && (forall i :: 0 <= i < |nodes| ==>
            && nodes[i].heap.Sane() && nodes[i].paging == null
            && nodes[i].heap.saddr + nodes[i].heap.entries.Length * BLOCK_SIZE < FRAMES * PAGE_SIZE)
    }

    /** multiheap_get_max_memory_end_address. */
    method MaxEndAddress() returns (max: nat)
      requires Added()
      ensures forall i :: 0 <= i < |nodes| ==> nodes[i].heap.End() <= max
      ensures max == 0 || exists i :: 0 <= i < |nodes| && max == nodes[i].heap.End()
      ensures max % PAGE_SIZE == 0
    {
      max := 0;
      for i := 0 to |nodes|
        invariant forall j :: 0 <= j < i ==> nodes[j].heap.End() <= max
        invariant max == 0 || exists j :: 0 <= j < i && max == nodes[j].heap.End()
        invariant max % PAGE_SIZE == 0
      {
        if nodes[i].heap.End() >= max {
          max := nodes[i].heap.End();
        }
      }
    }

    /** multiheap.c:408-421 for one heap. */
    method NewPagingHeap(backing: Heap, max: nat) returns (heap: Heap)
      requires backing.Sane() && tables.Valid() && tables as object != backing && max % PAGE_SIZE == 0
      requires max + backing.End() <= PAGES * PAGE_SIZE && 3 * backing.entries.Length <= |tables.pool|
      modifies tables
      ensures fresh(heap) && fresh(heap.entries) && fresh(heap.data) && heap.entries as object != heap.data as object
      ensures heap.Sane() && CountsExact(heap)
      ensures heap.entries.Length == backing.entries.Length && heap.saddr == max + backing.saddr
      ensures heap.entries[..] == seq(heap.entries.Length, _ => FREE)
      ensures heap.saddr / PAGE_SIZE + heap.entries.Length <= PAGES
      ensures tables.Valid() && tables.Premapped(heap.saddr / PAGE_SIZE, heap.entries.Length)
      ensures forall p: nat :: p < PAGES ==>
        Target(tables.LeafOf(p)) ==
        if heap.saddr / PAGE_SIZE <= p < heap.saddr / PAGE_SIZE + heap.entries.Length then p * PAGE_SIZE
          else Target(old(tables.LeafOf(p)))
      ensures forall p: nat :: p < PAGES ==> tables.MissingOf(p) <= old(tables.MissingOf(p))
      ensures |old(tables.pool)| - 3 * backing.entries.Length <= |tables.pool|
    {
      hide *;
      NewRange(backing, max);
      var start, end, n := max + backing.saddr, max + backing.End(), backing.entries.Length;
      heap := FreshHeap(start, n);
      var res := tables.MapTo(start, start, end, 0);
      PremappedNone(start / PAGE_SIZE);
      forall p: nat | p < PAGES
        ensures Target(tables.LeafOf(p)) ==
          if heap.saddr / PAGE_SIZE <= p < heap.saddr / PAGE_SIZE + heap.entries.Length then p * PAGE_SIZE
            else Target(old(tables.LeafOf(p)))
      {
        if n > 0 && start / PAGE_SIZE <= p {
          IdentityTarget(old(tables.LeafOf(p)), start, p);
        }
      }
    }

    lemma PremappedNone(first: nat)
      ensures tables.Premapped(first, 0)
    {
    }

    /** Where the paging heap for `backing` lies. */
    static lemma NewRange(backing: Heap, max: nat)
      requires backing.Sane() && max % PAGE_SIZE == 0 && max + backing.End() <= PAGES * PAGE_SIZE
      ensures var start, end, n := max + backing.saddr, max + backing.End(), backing.entries.Length;
              && PAGE_SIZE > 0 && start % PAGE_SIZE == 0 && end % PAGE_SIZE == 0 && start <= end
              && start % BLOCK_SIZE == 0 && 0 < start && start + n * BLOCK_SIZE < WORD
              && (end - start) / PAGE_SIZE == n && start / PAGE_SIZE + n <= PAGES && BLOCK_SIZE > 0
              && (n > 0 ==> Page(start) == start / PAGE_SIZE) && Page(start) + (end - start) / PAGE_SIZE <= PAGES
    {
      var start, n := max + backing.saddr, backing.entries.Length;
      assert start % PAGE_SIZE == 0;
      WholePages(start, n);
    }

    /** The pages from `first` on point to themselves. */
    ghost predicate Identity(first: nat, n: nat)
      reads tables
    {
      forall p: nat :: first <= p < first + n ==> Target(tables.LeafOf(p)) == p * PAGE_SIZE
    }

    /** The paging heap of a node is ready and empty. */
    ghost predicate Prepared(n: Node)
      reads this, tables, n.paging, if n.paging == null then {} else {n.paging.entries, n.paging.data}
    {
      && PagingReady(n) && (n.paging != null ==> n.paging.Sane()) && (!n.allowsPaging ==> n.paging == null)
      && (n.allowsPaging ==>
            && n.paging.entries[..] == seq(n.heap.entries.Length, _ => FREE) && CountsExact(n.paging)
            && Identity(n.paging.saddr / PAGE_SIZE, n.paging.entries.Length))
    }

    /** multiheap_ready has dealt with the first `i` nodes. */
    ghost predicate PreparedUpTo(i: nat)
      reads this, tables, repr
    {
      && i <= |nodes| && Separate() && tables.Valid()
      && (forall k :: 0 <= k < |nodes| ==> nodes[k].heap.Sane())
      && (forall k :: 0 <= k < i ==> Prepared(nodes[k]))
      && (forall k :: i <= k < |nodes| ==> nodes[k].paging == null)
    }

    method PrepareOne(i: nat)
      requires PreparedUpTo(i) && i < |nodes| && nodes[i].allowsPaging && maxEnd % PAGE_SIZE == 0
      requires maxEnd + nodes[i].heap.End() <= PAGES * PAGE_SIZE && 3 * nodes[i].heap.entries.Length <= |tables.pool|
      modifies this, tables
      ensures PreparedUpTo(i + 1) && maxEnd == old(maxEnd) && fresh(repr - old(repr))
      ensures nodes == old(nodes)[i := old(nodes)[i].(paging := nodes[i].paging)]
      ensures |old(tables.pool)| - 3 * nodes[i].heap.entries.Length <= |tables.pool|
    {
      hide Heap.Sane, PageTables.Valid, WellFormed, Missing, Leaf, Tree, PoolOk, Path, Used, CountsExact, Target;
      var node := nodes[i];
      var heap := NewPagingHeap(node.heap, maxEnd);
      assert PreparedUpTo(i);
      AllApartMore(nodes, repr, i, heap);
      assert Separate();
      nodes := nodes[i := node.(paging := heap)];
      repr := repr + {heap, heap.entries, heap.data};
    }

    /** multiheap.c:400-401. */
    method FixMaxEnd()
      requires Added()
      modifies this`maxEnd
      ensures PreparedUpTo(0) && maxEnd % PAGE_SIZE == 0
      ensures maxEnd == 0 || exists i :: 0 <= i < |nodes| && maxEnd == nodes[i].heap.End()
      ensures forall i :: 0 <= i < |nodes| ==> nodes[i].heap.End() <= maxEnd
    {
      var max := MaxEndAddress();
      maxEnd := max;
    }

    /** multiheap_ready: a paging heap of the same size for each heap that allows paging,
        its whole range mapped (not present), so that every table it will need exists. */
    method Ready()
      requires Added()
      requires forall i :: 0 <= i < |nodes| ==> 2 * nodes[i].heap.End() <= PAGES * PAGE_SIZE
      requires 3 * PagingBlocks(nodes) <= |tables.pool|
      modifies this, tables
      ensures Valid() && |nodes| == |old(nodes)| && fresh(repr - old(repr))
      ensures forall i :: 0 <= i < |nodes| ==>
        && nodes[i].heap == old(nodes)[i].heap && nodes[i].allowsPaging == old(nodes)[i].allowsPaging
        && nodes[i].heap.View() == old(nodes[i].heap.View()) && nodes[i].heap.End() <= maxEnd && Prepared(nodes[i])
      ensures Gaps(old(nodes)) ==> Located()
      ensures AllRanges() && (old(WholeChains()) ==> WholeChains())
    {
      hide *;
      FixMaxEnd();
      ghost var max := maxEnd;
      ghost var was := nodes;
      assert was[0..] == was;
      var i := 0;
      while i < |nodes|
        invariant 0 <= i <= |nodes| == |was| && maxEnd == max && PreparedUpTo(i) && fresh(repr - old(repr))
        invariant forall k :: 0 <= k < |nodes| ==>
          nodes[k].heap == was[k].heap && nodes[k].allowsPaging == was[k].allowsPaging
        invariant 3 * PagingBlocks(was[i..]) <= |tables.pool|
      {
        assert was[i..][1..] == was[i + 1..];
        FirstBlocks(was[i..]);
        if nodes[i].allowsPaging {
          PrepareOne(i);
        } else {
          PlainIsPrepared(i);
        }
        i := i + 1;
      }
      AllPrepared();
      SameGaps(was);
      FreshRanges();
      FreshWhole();
    }

    lemma SameGaps(was: seq<Node>)
      requires |nodes| == |was| && forall i :: 0 <= i < |nodes| ==> nodes[i].heap == was[i].heap
      requires forall i :: 0 <= i < |nodes| ==> nodes[i].heap.End() <= maxEnd
      ensures Gaps(was) ==> Located()
    {
    }

    lemma EligibleFresh(i: nat, n: nat)
      requires Valid() && i < |nodes| && Prepared(nodes[i])
      ensures Eligible(i, n) <==> Promises(nodes[i], n)
      ensures Promises(nodes[i], n) ==> nodes[i].paging != null && FirstFit(nodes[i].paging.entries[..], n) == 0
    {
      if nodes[i].allowsPaging {
        FitsEmpty(nodes[i].paging.entries[..], n);
      }
    }

    lemma AllFresh(n: nat)
      requires Valid() && forall i :: 0 <= i < |nodes| ==> Prepared(nodes[i])
      ensures NoneEligible(n) <==> forall i: nat :: i < |nodes| ==> !Promises(nodes[i], n)
      ensures forall i: nat :: i < |nodes| ==>
        && (Eligible(i, n) <==> Promises(nodes[i], n))
        && (Promises(nodes[i], n) ==>
              nodes[i].paging != null && FirstFit(nodes[i].paging.entries[..], n) == 0)
    {
      assert Separate();
      hide Valid, Eligible, Promises, Separate, Prepared, FirstFit;
      forall i: nat | i < |nodes|
        ensures Eligible(i, n) <==> Promises(nodes[i], n)
        ensures Promises(nodes[i], n) ==>
          nodes[i].paging != null && FirstFit(nodes[i].paging.entries[..], n) == 0
      {
        EligibleFresh(i, n);
      }
    }

    /** The data heap of node `c` and its paging heap through the page tables. */
    ghost function SnapOf(c: nat): Snap
      reads this, repr, tables
      requires Valid() && c < |nodes| && nodes[c].paging != null
    {
      Snap(nodes[c].heap.saddr, nodes[c].paging.saddr, nodes[c].heap.entries[..], nodes[c].paging.entries[..],
           tables.mem, tables.root)
    }

    /** Every page of every paging heap stands for what it should. */
    ghost predicate AllRanges()
      reads this, repr, tables
      requires Valid()
    {
      forall i: nat :: i < |nodes| && nodes[i].allowsPaging && nodes[i].paging != null ==> SnapOf(i).RangesOk()
    }

    ghost predicate WholeNode(i: nat)
      reads this, repr
      requires Separate() && i < |nodes|
    {
      && WellFormed(nodes[i].heap.entries[..])
      && (nodes[i].paging != null ==> WellFormed(nodes[i].paging.entries[..]))
    }

    /** All heaps hold complete chains only. */
    ghost predicate WholeChains()
      reads this, repr
      requires Separate()
    {
      forall i: nat :: i < |nodes| ==> WholeNode(i)
    }

    lemma FreshRanges()
      requires Valid() && forall i :: 0 <= i < |nodes| ==> Prepared(nodes[i])
      ensures AllRanges()
    {
      assert Separate();
      hide Valid, Path, Leaf, Missing, Target, Separate;
      forall i: nat | i < |nodes| && nodes[i].allowsPaging && nodes[i].paging != null
        ensures SnapOf(i).RangesOk()
      {
        FreshRange(i);
      }
    }

    lemma FreshRange(i: nat)
      requires Valid() && i < |nodes| && nodes[i].allowsPaging && nodes[i].paging != null && Prepared(nodes[i])
      ensures SnapOf(i).RangesOk()
    {
      hide Path, Leaf, Missing, Target, Tree, WellFormed;
      FreeFacts();
      var s := SnapOf(i);
      forall k: nat | k < |s.range|
        ensures !s.TakenPage(k) && s.TargetAt(k) == s.virt + k * BLOCK_SIZE
      {
        assert s.TargetAt(k) == Target(tables.LeafOf(s.PageAt(k))) == s.PageAt(k) * PAGE_SIZE;
      }
    }

    twostate lemma FreshWhole()
      requires old(Added()) && Valid() && |nodes| == |old(nodes)|
      requires forall i :: 0 <= i < |nodes| ==>
        nodes[i].heap == old(nodes)[i].heap && nodes[i].heap.View() == old(nodes[i].heap.View()) && Prepared(nodes[i])
      ensures old(WholeChains()) ==> WholeChains()
    {
      if old(WholeChains()) {
        forall i: nat | i < |nodes|
          ensures WholeNode(i)
        {
          assert old(WholeNode(i));
          FreshNode(i, old(nodes[i].heap.View()));
        }
      }
    }

    lemma FreshNode(i: nat, was: State)
      requires Valid() && i < |nodes| && Prepared(nodes[i]) && nodes[i].heap.View() == was && WellFormed(was.table)
      ensures WholeNode(i)
    {
      hide Multi.Valid, WellFormed, PagingReady, Identity;
      if nodes[i].paging != null {
        FreeWhole(nodes[i].paging.entries[..]);
      }
    }

    lemma PlainIsPrepared(i: nat)
      requires PreparedUpTo(i) && i < |nodes| && !nodes[i].allowsPaging
      ensures PreparedUpTo(i + 1)
    {
    }

    lemma AllPrepared()
      requires PreparedUpTo(|nodes|)
      requires forall i :: 0 <= i < |nodes| ==> 2 * nodes[i].heap.End() <= PAGES * PAGE_SIZE
      ensures Valid() && forall i :: 0 <= i < |nodes| ==> Prepared(nodes[i])
    {
    }

    lemma ReadyNode(c: nat)
      requires Valid() && c < |nodes| && nodes[c].allowsPaging
      ensures nodes[c].paging != null
    {
    }

    /** heap_malloc in the paging heap of one node: as written, or with the marking repaired
        so that the chain is `complete`. */
    method MallocIn(c: nat, n: nat, complete: bool) returns (address: nat)
      requires Valid() && c < |nodes| && nodes[c].paging != null && n * BLOCK_SIZE <= WORD - BLOCK_SIZE
      modifies nodes[c].paging, nodes[c].paging.entries
      ensures Valid()
      ensures nodes[c].paging.View() == MallocStepBy(complete, old(nodes[c].paging.View()), n)
      ensures address == nodes[c].paging.Pointer(FirstFit(old(nodes[c].paging.entries[..]), n))
      ensures address == 0 <==> FirstFit(old(nodes[c].paging.entries[..]), n) < 0
      ensures forall i: nat :: i < |nodes| ==> nodes[i].heap.View() == old(nodes[i].heap.View())
      ensures forall i: nat :: i < |nodes| && i != c && nodes[i].paging != null ==>
        nodes[i].paging.View() == old(nodes[i].paging.View())
    {
      hide Heap.Sane, Heap.Valid, Heap.View, MallocStep, MallocStepAsWritten, FirstFit, PageTables.Valid,
           PageTables.Premapped;
      assert forall i: nat :: i < |nodes| ==> Apart(nodes[i].heap, nodes[c].paging);
      assert forall i: nat :: i < |nodes| && i != c ==> Apart(nodes[i].paging, nodes[c].paging);
      PositiveStart(nodes[c].paging);
      if complete {
        address := nodes[c].paging.Malloc(n * BLOCK_SIZE);
      } else {
        address := nodes[c].paging.MallocAsWritten(n * BLOCK_SIZE);
      }
    }

    /** The body of the loop in multiheap_alloc_paging. */
    method TryPaging(c: nat, n: nat, complete: bool) returns (address: nat)
      requires Valid() && c < |nodes| && n * BLOCK_SIZE <= WORD - BLOCK_SIZE
      modifies if nodes[c].paging == null then {} else {nodes[c].paging, nodes[c].paging.entries}
      ensures Valid() && (address != 0 <==> old(Eligible(c, n)))
      ensures address != 0 ==>
        && nodes[c].paging.View() == MallocStepBy(complete, old(nodes[c].paging.View()), n)
        && address == nodes[c].paging.Pointer(FirstFit(old(nodes[c].paging.entries[..]), n))
      ensures address == 0 && nodes[c].paging != null ==> nodes[c].paging.View() == old(nodes[c].paging.View())
      ensures forall i: nat :: i < |nodes| ==> nodes[i].heap.View() == old(nodes[i].heap.View())
      ensures forall i: nat :: i < |nodes| && i != c && nodes[i].paging != null ==>
        nodes[i].paging.View() == old(nodes[i].paging.View())
    {
      hide Heap.Sane, FirstFit, PageTables.Valid, PageTables.Premapped, Apart, Multi.Valid, Heap.Pointer;
      address := 0;
      var node := nodes[c];
      if !node.allowsPaging {
        return;
      }
      ReadyNode(c);
      if node.heap.freeBlocks < n {
        return;
      }
      address := MallocIn(c, n, complete);
    }

    lemma EligibleView(i: nat, n: nat)
      requires Valid() && i < |nodes|
      ensures Eligible(i, n) <==>
        nodes[i].allowsPaging && nodes[i].paging != null && CanTake(nodes[i].heap.View(), nodes[i].paging.View(), n)
      ensures nodes[i].paging != null ==> nodes[i].paging.View().table == nodes[i].paging.entries[..]
    {
    }

    /** multiheap_alloc_paging: a virtual range in the paging heap of the first heap with
        enough free blocks. */
    method AllocPaging(n: nat, complete: bool) returns (address: nat, chosen: nat)
      requires Valid() && n * BLOCK_SIZE <= WORD - BLOCK_SIZE
      modifies repr
      ensures Valid()
      ensures address == 0 <==> chosen == |nodes|
      ensures chosen <= |nodes| && forall i: nat :: i < chosen ==> !old(Eligible(i, n))
      ensures chosen < |nodes| ==>
        && old(Eligible(chosen, n))
        && nodes[chosen].paging.View() == MallocStepBy(complete, old(nodes[chosen].paging.View()), n)
        && address == nodes[chosen].paging.Pointer(FirstFit(old(nodes[chosen].paging.entries[..]), n))
      ensures forall i: nat :: i < |nodes| ==> nodes[i].heap.View() == old(nodes[i].heap.View())
      ensures forall i: nat :: i < |nodes| && i != chosen && nodes[i].paging != null ==>
        nodes[i].paging.View() == old(nodes[i].paging.View())
    {
      hide *;
      ApartFromThis();
      forall i: nat | i < |nodes|
        ensures Eligible(i, n) <==>
          nodes[i].allowsPaging && nodes[i].paging != null && CanTake(nodes[i].heap.View(), nodes[i].paging.View(), n)
        ensures nodes[i].paging != null ==> nodes[i].paging.View().table == nodes[i].paging.entries[..]
      {
        EligibleView(i, n);
      }
      address, chosen := 0, 0;
      while chosen < |nodes|
        invariant chosen <= |nodes| && Valid() && this !in repr && Separate()
        invariant forall i: nat :: i < chosen ==> !old(Eligible(i, n))
        invariant forall i: nat :: i < |nodes| ==> nodes[i].heap.View() == old(nodes[i].heap.View())
        invariant forall i: nat :: i < |nodes| && nodes[i].paging != null ==>
          nodes[i].paging.View() == old(nodes[i].paging.View())
        invariant address == 0
      {
        assert nodes[chosen].heap.View() == old(nodes[chosen].heap.View());
        assert nodes[chosen].paging != null ==> nodes[chosen].paging.View() == old(nodes[chosen].paging.View());
        InsideRepr(chosen);
        ApartFromThis();
        EligibleView(chosen, n);
        address := TryPaging(chosen, n, complete);
        if address != 0 {
          return;
        }
        chosen := chosen + 1;
      }
    }

    /** heap_zalloc of one block in the data heap of one node. */
    method ZallocBlock(c: nat) returns (address: nat, ghost b: nat)
      requires Valid() && c < |nodes|
      modifies nodes[c].heap, nodes[c].heap.entries, nodes[c].heap.data
      ensures Valid() && (old(CountsExact(nodes[c].heap)) ==> CountsExact(nodes[c].heap))
      ensures address == 0 <==> old(Room(nodes[c].heap)) == 0
      ensures address == 0 ==> nodes[c].heap.View() == old(nodes[c].heap.View())
      ensures address != 0 ==>
        && b < nodes[c].heap.entries.Length && address == nodes[c].heap.Address(b)
        && old(nodes[c].heap.entries[..])[b] == FREE
        && nodes[c].heap.entries[..] == MarkTaken(old(nodes[c].heap.entries[..]), b, 1)
        && Room(nodes[c].heap) == old(Room(nodes[c].heap)) - 1
        && nodes[c].heap.data[..] == Zeroed(old(nodes[c].heap.data[..]), b, 1)
      ensures forall i: nat :: i < |nodes| && i != c ==> nodes[i].heap.View() == old(nodes[i].heap.View())
      ensures forall i: nat :: i < |nodes| && nodes[i].paging != null ==>
        nodes[i].paging.View() == old(nodes[i].paging.View())
    {
      assert forall i: nat :: i < |nodes| ==>
        Apart(nodes[c].heap, nodes[i].paging) && (i != c ==> Apart(nodes[c].heap, nodes[i].heap));
      hide Heap.Sane, Heap.View, Inside, FirstFit, WellFormed, PageTables.Valid, PageTables.Premapped, MarkTaken,
           Zeroed, Used, CountsExact, Heap.Address;
      address, b := ZallocOne(nodes[c].heap);
    }

    /** paging_map of one page whose tables all exist. */
    method MapPage(va: nat, phys: nat, flags: bv8)
      requires Valid() && tables.MissingOf(Page(va)) == 0
      modifies tables
      ensures Valid()
      ensures forall p: nat :: p < PAGES ==>
        tables.LeafOf(p) == if p == Page(va) then Mapped(old(tables.LeafOf(p)), phys, flags) else old(tables.LeafOf(p))
      ensures tables.pool == old(tables.pool) && tables.mem.Keys == old(tables.mem.Keys)
      ensures SlotsKept(old(tables.mem), tables.mem, tables.root)
    {
      hide Heap.Sane, WellFormed, PageTables.Valid, Apart, Path, Leaf, Missing, Walk, IsSuffix, Mapped, SlotsKept;
      tables.Map(va, phys, flags);
    }

    lemma PremappedPage(c: nat, b: nat)
      requires Valid() && c < |nodes| && nodes[c].allowsPaging && b < nodes[c].heap.entries.Length
      ensures nodes[c].paging != null && nodes[c].paging.entries.Length == nodes[c].heap.entries.Length
      ensures Page(nodes[c].paging.Address(b)) == nodes[c].paging.saddr / PAGE_SIZE + b < PAGES
      ensures tables.MissingOf(Page(nodes[c].paging.Address(b))) == 0 && nodes[c].paging.Address(b) % PAGE_SIZE == 0
      ensures nodes[c].heap.Address(b) < FRAMES * PAGE_SIZE
    {
      PageShift(nodes[c].paging.saddr, b);
    }

    /** multiheap.c:347-377: the range, then one block behind each of its pages. */
    method AllocRange(size: nat, complete: bool)
      returns (address: nat, panicked: bool, ghost chosen: nat, ghost blocks: seq<nat>)
      requires Valid() && size <= WORD - BLOCK_SIZE
      modifies repr, tables
      ensures Valid()
      ensures address == 0 <==> old(NoneEligible(BlocksFor(size)))
      ensures address == 0 ==> !panicked && chosen == |nodes| && tables.mem == old(tables.mem)
      ensures address != 0 ==>
        && chosen < |nodes| && nodes[chosen].allowsPaging && old(Eligible(chosen, BlocksFor(size)))
        && nodes[chosen].paging != null
        && (forall i: nat :: i < chosen ==> !old(Eligible(i, BlocksFor(size))))
        && (panicked <==> BlocksFor(size) > old(Room(nodes[chosen].heap)))
        && (old(CountsExact(nodes[chosen].heap)) ==> !panicked && CountsExact(nodes[chosen].heap))
        && nodes[chosen].paging.View() == MallocStepBy(complete, old(nodes[chosen].paging.View()), BlocksFor(size))
        && FirstFit(old(nodes[chosen].paging.entries[..]), BlocksFor(size)) >= 0 && BlocksFor(size) > 0
        && address == nodes[chosen].paging.Address(FirstFit(old(nodes[chosen].paging.entries[..]), BlocksFor(size)))
      ensures address != 0 && !panicked ==>
        && Backed(old(nodes[chosen].heap.entries[..]), nodes[chosen].heap.entries[..], blocks, BlocksFor(size))
        && RangeFrames(Page(address), nodes[chosen].heap, blocks)
        && (forall p: nat :: p < PAGES ==>
              tables.LeafOf(p) == RangeLeaf(old(tables.LeafOf(p)), p, Page(address), nodes[chosen].heap, blocks))
      ensures SlotsKept(old(tables.mem), tables.mem, tables.root)
      ensures tables.pool == old(tables.pool) && tables.mem.Keys == old(tables.mem.Keys)
      ensures forall i: nat :: i < |nodes| && i != chosen ==>
        && nodes[i].heap.View() == old(nodes[i].heap.View())
        && (nodes[i].paging != null ==> nodes[i].paging.View() == old(nodes[i].paging.View()))
    {
      hide Heap.Sane, PageTables.Valid, Apart, Leaf, Missing, Used, Path, Backed, Mapped, Page, RangeLeaf,
           RangeFrames, Heap.Address, SlotsKept;
      SlotsKeptRefl(tables.mem, tables.root);
      var aligned := AlignUp(size);
      var n := aligned / BLOCK_SIZE;
      var c;
      address, c := AllocPaging(n, complete);
      panicked, chosen, blocks := false, c, [];
      if address == 0 {
        return;
      }
      assert nodes[c].heap.View() == old(nodes[c].heap.View());
      ghost var start := FirstFit(old(nodes[c].paging.entries[..]), n);
      panicked, blocks := BackRange(c, address, n, start);
    }

    /** One block of the data heap behind one page (multiheap.c:365-375); NULL, and so the
        panic, exactly when no entry is free. */
    method BackOne(c: nat, current: nat, ghost at: nat) returns (panicked: bool, ghost b: nat)
      requires Valid() && c < |nodes| && nodes[c].allowsPaging && at < nodes[c].heap.entries.Length
      requires nodes[c].paging != null && current == nodes[c].paging.Address(at)
      modifies nodes[c].heap, nodes[c].heap.entries, nodes[c].heap.data, tables
      ensures Valid() && (old(CountsExact(nodes[c].heap)) ==> CountsExact(nodes[c].heap))
      ensures panicked <==> old(Room(nodes[c].heap)) == 0
      ensures !panicked ==>
        && b < nodes[c].heap.entries.Length && old(nodes[c].heap.entries[..])[b] == FREE
        && nodes[c].heap.entries[..] == MarkTaken(old(nodes[c].heap.entries[..]), b, 1)
        && Room(nodes[c].heap) == old(Room(nodes[c].heap)) - 1
      ensures tables.pool == old(tables.pool) && tables.mem.Keys == old(tables.mem.Keys)
      ensures !panicked ==> forall p: nat :: p < PAGES ==>
        tables.LeafOf(p) == if p == Page(current)
          then Mapped(old(tables.LeafOf(p)), nodes[c].heap.Address(b), IS_WRITEABLE | IS_PRESENT)
                            else old(tables.LeafOf(p))
      ensures SlotsKept(old(tables.mem), tables.mem, tables.root)
      ensures forall i: nat :: i < |nodes| && i != c ==> nodes[i].heap.View() == old(nodes[i].heap.View())
      ensures forall i: nat :: i < |nodes| && nodes[i].paging != null ==>
        nodes[i].paging.View() == old(nodes[i].paging.View())
    {
      hide Heap.Sane, PageTables.Valid, Apart, WellFormed, Leaf, Missing, Used, Mapped, Multi.Valid, Page,
           Heap.Address, MarkTaken, Zeroed, SlotsKept, CountsExact, Room;
      SlotsKeptRefl(tables.mem, tables.root);
      var block;
      block, b := ZallocBlock(c);
      if block == 0 {
        return true, b;
      }
      panicked := false;
      PremappedPage(c, at);
      MapPage(current, block, IS_WRITEABLE | IS_PRESENT);
    }

    /** One turn of that loop, `i` blocks being in place: `t` is the table of the data heap
        and `mem` the memory of the page tables before the first turn. */
    method BackNext(c: nat, current: nat, ghost start: nat, ghost i: nat, ghost blocks: seq<nat>,
        ghost t: seq<BlockEntry>, ghost first: nat, ghost mem: Memory)
      returns (panicked: bool, ghost more: seq<nat>)
      requires Valid() && c < |nodes| && nodes[c].allowsPaging && start + i < nodes[c].heap.entries.Length
      requires nodes[c].paging != null && current == nodes[c].paging.Address(start + i) && |blocks| == i
      requires first == Page(nodes[c].paging.Address(start)) && Backed(t, nodes[c].heap.entries[..], blocks, i)
      requires SlotsKept(mem, tables.mem, tables.root)
      requires forall p: nat :: p < PAGES ==>
        tables.LeafOf(p) == RangeLeaf(Leaf(mem, tables.root, Path(p)), p, first, nodes[c].heap, blocks)
      modifies nodes[c].heap, nodes[c].heap.entries, nodes[c].heap.data, tables
      ensures Valid() && (old(CountsExact(nodes[c].heap)) ==> CountsExact(nodes[c].heap))
      ensures panicked <==> old(Room(nodes[c].heap)) == 0
      ensures tables.pool == old(tables.pool) && tables.mem.Keys == old(tables.mem.Keys)
      ensures SlotsKept(mem, tables.mem, tables.root)
      ensures !panicked ==>
        && Room(nodes[c].heap) == old(Room(nodes[c].heap)) - 1
        && |more| == i + 1 && Backed(t, nodes[c].heap.entries[..], more, i + 1)
        && (forall p: nat :: p < PAGES ==>
              tables.LeafOf(p) == RangeLeaf(Leaf(mem, tables.root, Path(p)), p, first, nodes[c].heap, more))
      ensures forall k: nat :: k < |nodes| && k != c ==> nodes[k].heap.View() == old(nodes[k].heap.View())
      ensures forall k: nat :: k < |nodes| && nodes[k].paging != null ==>
        nodes[k].paging.View() == old(nodes[k].paging.View())
    {
      hide *;
      ghost var mid, now := nodes[c].heap.entries[..], tables.mem;
      PremappedPage(c, start);
      PremappedPage(c, start + i);
      ghost var b;
      panicked, b := BackOne(c, current, start + i);
      SlotsKeptTrans(mem, now, tables.mem, tables.root);
      more := blocks + [b];
      if !panicked {
        BackedMore(t, mid, blocks, b);
        RangeMore(nodes[c].heap, first, blocks, b);
      }
    }

    /** multiheap.c:363-376: one block of the data heap behind each page of the range; the
        panic at line 371 exactly when fewer than `n` entries are free. */
    method BackRange(c: nat, address: nat, n: nat, ghost start: nat) returns (panicked: bool, ghost blocks: seq<nat>)
      requires Valid() && c < |nodes| && nodes[c].allowsPaging && start + n <= nodes[c].heap.entries.Length
      requires nodes[c].paging != null && address == nodes[c].paging.Address(start)
      modifies nodes[c].heap, nodes[c].heap.entries, nodes[c].heap.data, tables
      ensures Valid() && (old(CountsExact(nodes[c].heap)) ==> CountsExact(nodes[c].heap))
      ensures panicked <==> n > old(Room(nodes[c].heap))
      ensures !panicked ==> Backed(old(nodes[c].heap.entries[..]), nodes[c].heap.entries[..], blocks, n)
      ensures tables.pool == old(tables.pool) && tables.mem.Keys == old(tables.mem.Keys)
      ensures !panicked ==> forall p: nat :: p < PAGES ==>
        tables.LeafOf(p) == RangeLeaf(old(tables.LeafOf(p)), p, Page(address), nodes[c].heap, blocks)
      ensures !panicked && n > 0 ==> RangeFrames(Page(address), nodes[c].heap, blocks)
      ensures SlotsKept(old(tables.mem), tables.mem, tables.root)
      ensures forall i: nat :: i < |nodes| && i != c ==> nodes[i].heap.View() == old(nodes[i].heap.View())
      ensures forall i: nat :: i < |nodes| && nodes[i].paging != null ==>
        nodes[i].paging.View() == old(nodes[i].paging.View())
    {
      hide *;
      Leaves();
      ReadyNode(c);
      SlotsKeptRefl(tables.mem, tables.root);
      ghost var heap := nodes[c].heap;
      ghost var t := heap.entries[..];
      ghost var first := Page(address);
      blocks := [];
      BackedNone(t);
      RangeNone(heap);
      var current := address;
      var i := 0;
      while i < n
        invariant i <= n && |blocks| == i && Valid() && nodes[c].paging != null
        invariant i < n ==> current == nodes[c].paging.Address(start + i)
        invariant Backed(t, heap.entries[..], blocks, i) && Room(heap) + i == old(Room(nodes[c].heap))
        invariant old(CountsExact(nodes[c].heap)) ==> CountsExact(heap)
        invariant forall p: nat :: p < PAGES ==>
          tables.LeafOf(p) == RangeLeaf(old(tables.LeafOf(p)), p, first, heap, blocks)
        invariant tables.pool == old(tables.pool) && tables.mem.Keys == old(tables.mem.Keys)
        invariant SlotsKept(old(tables.mem), tables.mem, tables.root)
        invariant forall k: nat :: k < |nodes| && k != c ==> nodes[k].heap.View() == old(nodes[k].heap.View())
        invariant forall k: nat :: k < |nodes| && nodes[k].paging != null ==>
          nodes[k].paging.View() == old(nodes[k].paging.View())
      {
        panicked, blocks := BackNext(c, current, start, i, blocks, t, first, old(tables.mem));
        if panicked {
          return;
        }
        NextPage(nodes[c].paging, start + i);
        current := current + BLOCK_SIZE;
        i := i + 1;
      }
      panicked := false;
      BackedLength(t, heap.entries[..], blocks, n);
      if n > 0 {
        FramesIn(c, start, blocks, old(tables.mem));
      }
    }

    lemma FramesIn(c: nat, start: nat, blocks: seq<nat>, mem: Memory)
      requires Valid() && c < |nodes| && nodes[c].allowsPaging && start + |blocks| <= nodes[c].heap.entries.Length
      requires nodes[c].paging != null && |blocks| > 0
      requires forall p: nat :: p < PAGES ==>
        tables.LeafOf(p) == RangeLeaf(Leaf(mem, tables.root, Path(p)), p, Page(nodes[c].paging.Address(start)),
          nodes[c].heap, blocks)
      ensures RangeFrames(Page(nodes[c].paging.Address(start)), nodes[c].heap, blocks)
    {
      hide Multi.Valid, Path, Leaf, RangeLeaf, Page, Heap.Address, PageTables.LeafOf;
      PremappedPage(c, start);
      PremappedPage(c, start + |blocks| - 1);
      var heap, first := nodes[c].heap, Page(nodes[c].paging.Address(start));
      forall p | first <= p < first + |blocks|
        ensures tables.LeafOf(p).frame == (heap.Address(blocks[p - first]) / PAGE_SIZE) % FRAMES
      {
        LeafFrame(Leaf(mem, tables.root, Path(p)), p, first, heap, blocks);
      }
    }

    /** The pages from `first` on are mapped to `blocks`, one by one. */
    ghost predicate RangeFrames(first: nat, heap: Heap, blocks: seq<nat>)
      reads tables
    {
      && first + |blocks| <= PAGES
      && forall p :: first <= p < first + |blocks| ==>
        tables.LeafOf(p).frame == (heap.Address(blocks[p - first]) / PAGE_SIZE) % FRAMES
    }

    // --------------------------------------------------- the second pass

    lemma FrameAt(first: nat, heap: Heap, blocks: seq<nat>, i: nat)
      requires RangeFrames(first, heap, blocks) && i < |blocks|
      ensures tables.LeafOf(first + i).frame == (heap.Address(blocks[i]) / PAGE_SIZE) % FRAMES
    {
    }

    /** A page of the new range points to its block. */
    lemma NewTarget(c: nat, start: nat, n: nat, blocks: seq<nat>, k: nat)
      requires Valid() && c < |nodes| && nodes[c].allowsPaging && nodes[c].paging != null
      requires |blocks| == n && start <= k < start + n <= nodes[c].paging.entries.Length
      requires blocks[k - start] < nodes[c].heap.entries.Length
      requires RangeFrames(Page(nodes[c].paging.Address(start)), nodes[c].heap, blocks)
      ensures SnapOf(c).TargetAt(k) == SnapOf(c).BlockAt(blocks[k - start])
    {
      PremappedPage(c, start);
      PremappedPage(c, blocks[k - start]);
      WholeFrame(nodes[c].heap, blocks[k - start]);
      hide Multi.Valid, Path, Leaf, Missing, Page, RangeFrames, Separate, Heap.Sane;
      FrameAt(Page(nodes[c].paging.Address(start)), nodes[c].heap, blocks, k - start);
      SnapPage(c, k);
    }

    lemma SnapPage(c: nat, k: nat)
      requires Valid() && c < |nodes| && nodes[c].paging != null
      ensures SnapOf(c).PageAt(k) == nodes[c].paging.saddr / PAGE_SIZE + k
      ensures SnapOf(c).TargetAt(k) == Target(tables.LeafOf(nodes[c].paging.saddr / PAGE_SIZE + k))
      ensures forall b: nat :: SnapOf(c).BlockAt(b) == nodes[c].heap.Address(b)
    {
    }

    lemma NodeTabled(c: nat)
      requires Valid() && c < |nodes| && nodes[c].allowsPaging && nodes[c].paging != null
      ensures SnapOf(c).Tabled() && |SnapOf(c).range| == |SnapOf(c).table|
    {
      var s := SnapOf(c);
      hide Path, Leaf, Missing;
      forall k: nat | k < |s.range|
        ensures Missing(s.mem, s.root, Path(s.PageAt(k))) == 0
      {
        assert tables.MissingOf(s.PageAt(k)) == 0;
      }
    }

    /** `s` is how the node was seen at some earlier time. */
    ghost predicate Earlier(c: nat, s: Snap)
      reads this, repr, tables
      requires Valid() && c < |nodes| && nodes[c].paging != null
    {
      && s.base == nodes[c].heap.saddr && s.virt == nodes[c].paging.saddr && s.root == tables.root
      && |s.table| == nodes[c].heap.entries.Length && |s.range| == nodes[c].paging.entries.Length
      && s.Tabled() && SlotsKept(s.mem, tables.mem, s.root)
    }

    /** What the lookup finds has not changed, nor have the targets outside the new range. */
    lemma PassedPage(c: nat, start: nat, blocks: seq<nat>, s: Snap, k: nat)
      requires Valid() && c < |nodes| && nodes[c].allowsPaging && nodes[c].paging != null && Earlier(c, s)
      requires k < |s.range| && start < |s.range|
      requires forall p: nat :: p < PAGES ==>
        tables.LeafOf(p) == RangeLeaf(Leaf(s.mem, s.root, Path(p)), p, Page(nodes[c].paging.Address(start)),
          nodes[c].heap, blocks)
      ensures SnapOf(c).Found(k) == s.Found(k)
      ensures !(start <= k < start + |blocks|) ==> SnapOf(c).TargetAt(k) == s.TargetAt(k)
    {
      PremappedPage(c, start);
      SnapPage(c, k);
      assert s.PageAt(k) == SnapOf(c).PageAt(k) < PAGES && Missing(s.mem, s.root, Path(s.PageAt(k))) == 0;
      hide Multi.Valid, Path, Leaf, Missing, Page, SlotZero, Target, Separate, Mapped;
    }

    /** A second pass, seen on the two tables. */
    lemma SecondPassBacked(c: nat, start: nat, n: nat, blocks: seq<nat>, s: Snap)
      requires Valid() && c < |nodes| && nodes[c].allowsPaging && nodes[c].paging != null && n > 0 && Earlier(c, s)
      requires FreeRun(s.range, start, n) && Backed(s.table, nodes[c].heap.entries[..], blocks, n)
      requires nodes[c].paging.entries[..] == MarkTaken(s.range, start, n)
        || nodes[c].paging.entries[..] == MarkTakenAsWritten(s.range, start, n)
      requires RangeFrames(Page(nodes[c].paging.Address(start)), nodes[c].heap, blocks)
      requires forall p: nat :: p < PAGES ==>
        tables.LeafOf(p) == RangeLeaf(Leaf(s.mem, s.root, Path(p)), p, Page(nodes[c].paging.Address(start)),
          nodes[c].heap, blocks)
      ensures Passed(s, SnapOf(c), start, n, blocks)
    {
      var u := SnapOf(c);
      assert u.base == s.base && u.virt == s.virt && u.root == s.root && |u.range| == |s.range|;
      assert |blocks| == n && start + n <= |s.range| && forall i :: 0 <= i < n ==> blocks[i] < |s.table|;
      assert u.table == nodes[c].heap.entries[..] && u.range == nodes[c].paging.entries[..];
      assert nodes[c].paging.entries.Length == |s.range| && nodes[c].heap.entries.Length == |s.table|;
      hide *;
      forall k: nat | k < |s.range|
        ensures u.Found(k) == s.Found(k)
        ensures !(start <= k < start + n) ==> u.TargetAt(k) == s.TargetAt(k)
        ensures start <= k < start + n ==> u.TargetAt(k) == u.BlockAt(blocks[k - start])
      {
        PassedPage(c, start, blocks, s, k);
        if start <= k < start + n { NewTarget(c, start, n, blocks, k); }
      }
      PassedFrom(s, u, start, n, blocks);
    }

    /** The pages of another node have kept their targets, its heaps being apart. */
    lemma OtherKept(c: nat, start: nat, blocks: seq<nat>, i: nat, s: Snap)
      requires Valid() && Located() && c < |nodes| && nodes[c].allowsPaging && nodes[c].paging != null
      requires i < |nodes| && i != c && nodes[i].allowsPaging && nodes[i].paging != null && Earlier(i, s)
      requires s.table == nodes[i].heap.entries[..] && s.range == nodes[i].paging.entries[..]
      requires start + |blocks| <= nodes[c].paging.entries.Length && |blocks| > 0
      requires forall p: nat :: p < PAGES ==>
        tables.LeafOf(p) == RangeLeaf(Leaf(s.mem, s.root, Path(p)), p, Page(nodes[c].paging.Address(start)),
          nodes[c].heap, blocks)
      requires s.RangesOk()
      ensures SnapOf(i).RangesOk()
    {
      var u := SnapOf(i);
      PremappedPage(c, start);
      forall k: nat | k < |s.range|
        ensures u.TargetAt(k) == s.TargetAt(k)
      {
        PagesApart(c, i, start, |blocks|, k);
        SnapPage(i, k);
        assert s.PageAt(k) == u.PageAt(k) < PAGES;
        hide Multi.Valid, Path, Leaf, Missing, Page, SlotZero, Target, Separate, Mapped, Located, Earlier;
      }
      SameTargets(s, u);
    }

    lemma PagesApart(c: nat, i: nat, start: nat, n: nat, k: nat)
      requires Valid() && Located() && c < |nodes| && nodes[c].allowsPaging && nodes[c].paging != null
      requires i < |nodes| && i != c && nodes[i].allowsPaging && nodes[i].paging != null
      requires start + n <= nodes[c].paging.entries.Length && k < nodes[i].paging.entries.Length
      ensures var p := nodes[i].paging.saddr / PAGE_SIZE + k;
              !(nodes[c].paging.saddr / PAGE_SIZE + start <= p < nodes[c].paging.saddr / PAGE_SIZE + start + n)
    {
      PagingShift(c);
      PagingShift(i);
    }

    lemma PagingShift(i: nat)
      requires Valid() && i < |nodes| && nodes[i].allowsPaging && nodes[i].paging != null
      ensures nodes[i].paging.saddr == maxEnd + nodes[i].heap.saddr && nodes[i].paging.saddr % PAGE_SIZE == 0
      ensures nodes[i].paging.entries.Length == nodes[i].heap.entries.Length
      ensures nodes[i].paging.End() == maxEnd + nodes[i].heap.End()
    {
    }

    lemma EarlierNow(c: nat, s: Snap)
      requires Valid() && c < |nodes| && nodes[c].allowsPaging && nodes[c].paging != null
      requires s.base == nodes[c].heap.saddr && s.virt == nodes[c].paging.saddr && s.root == tables.root
      requires |s.range| == nodes[c].paging.entries.Length && |s.table| == |s.range| && s.Tabled()
      requires SlotsKept(s.mem, tables.mem, s.root)
      ensures Earlier(c, s)
    {
    }

    /** multiheap_alloc_second_pass. The result is NULL exactly when no heap is eligible,
        and then nothing has changed. The panic at line 371 is reached exactly when the
        first eligible heap has fewer free entries than its counter promises and than are
        asked for. Otherwise the result is a range of whole pages in the paging heap of
        the first eligible heap, mapped page by page to pairwise distinct blocks of that
        heap that were free before; no page table is allocated. The heaps may hold chains
        of any marking. The range is marked as the source marks it, or with `complete` as
        a chain of its own; only then, or for one block, do complete chains stay so. */
    method AllocSecondPass(size: nat, complete: bool)
      returns (address: nat, panicked: bool, ghost chosen: nat, ghost blocks: seq<nat>)
      requires Valid() && size <= WORD - BLOCK_SIZE
      modifies repr, tables
      ensures Valid()
      ensures address == 0 <==> old(NoneEligible(BlocksFor(size)))
      ensures address == 0 ==> !panicked && chosen == |nodes| && tables.mem == old(tables.mem)
      ensures address != 0 ==>
        && chosen < |nodes| && nodes[chosen].allowsPaging && old(Eligible(chosen, BlocksFor(size)))
        && nodes[chosen].paging != null
        && (forall i: nat :: i < chosen ==> !old(Eligible(i, BlocksFor(size))))
        && (panicked <==> BlocksFor(size) > old(Room(nodes[chosen].heap)))
        && (old(CountsExact(nodes[chosen].heap)) ==> !panicked && CountsExact(nodes[chosen].heap))
        && nodes[chosen].paging.View() == MallocStepBy(complete, old(nodes[chosen].paging.View()), BlocksFor(size))
        && FirstFit(old(nodes[chosen].paging.entries[..]), BlocksFor(size)) >= 0 && BlocksFor(size) > 0
        && address == nodes[chosen].paging.Address(FirstFit(old(nodes[chosen].paging.entries[..]), BlocksFor(size)))
      ensures address != 0 && !panicked ==>
        && Backed(old(nodes[chosen].heap.entries[..]), nodes[chosen].heap.entries[..], blocks, BlocksFor(size))
        && Passed(old(SnapOf(chosen)), SnapOf(chosen),
                  FirstFit(old(nodes[chosen].paging.entries[..]), BlocksFor(size)), BlocksFor(size), blocks)
        && (forall p: nat :: p < PAGES ==>
              tables.LeafOf(p) == RangeLeaf(old(tables.LeafOf(p)), p, Page(address), nodes[chosen].heap, blocks))
      ensures address != 0 && !panicked && old(WholeChains()) && (complete || BlocksFor(size) == 1) ==> WholeChains()
      ensures address != 0 && !panicked && Located() && old(AllRanges()) ==> AllRanges()
      ensures SlotsKept(old(tables.mem), tables.mem, tables.root)
      ensures tables.pool == old(tables.pool) && tables.mem.Keys == old(tables.mem.Keys)
      ensures forall i: nat :: i < |nodes| && i != chosen ==>
        && nodes[i].heap.View() == old(nodes[i].heap.View())
        && (nodes[i].paging != null ==> nodes[i].paging.View() == old(nodes[i].paging.View()))
    {
      hide *;
      ApartFromThis();
      Leaves();
      ghost var n := BlocksFor(size);
      forall i: nat | i < |nodes|
        ensures nodes[i].allowsPaging ==>
          && nodes[i].paging != null && SnapOf(i).Tabled() && |SnapOf(i).range| == |SnapOf(i).table|
          && (AllRanges() ==> SnapOf(i).RangesOk()) 
          && SnapOf(i).base == nodes[i].heap.saddr && SnapOf(i).virt == nodes[i].paging.saddr
          && SnapOf(i).root == tables.root && SnapOf(i).mem == tables.mem
          && SnapOf(i).table == nodes[i].heap.entries[..] && SnapOf(i).range == nodes[i].paging.entries[..]
        ensures WholeChains() ==>
          && WellFormed(nodes[i].heap.entries[..])
          && (nodes[i].paging != null ==> WellFormed(nodes[i].paging.entries[..]))
        ensures nodes[i].heap.View().table == nodes[i].heap.entries[..]
        ensures nodes[i].paging != null ==> nodes[i].paging.View().table == nodes[i].paging.entries[..]
      {
        NodeBefore(i);
      }
      address, panicked, chosen, blocks := AllocRange(size, complete);
      if address != 0 && !panicked {
        ghost var s, start: nat := old(SnapOf(chosen)), FirstFit(old(nodes[chosen].paging.entries[..]), n);
        EarlierNow(chosen, s);
        PassChosen(chosen, address, n, complete, blocks, s, old(nodes[chosen].paging.View()));
        PassedParts(s, SnapOf(chosen), start, n, blocks);
        ApartFromThis();
        forall i: nat | i < |nodes| && i != chosen
          ensures nodes[i].allowsPaging && old(AllRanges()) && Located() ==> SnapOf(i).RangesOk()
          ensures old(WholeChains()) ==> WholeNode(i)
        {
          SameView(nodes[i].heap, old(nodes[i].heap.View()));
          if nodes[i].paging != null { SameView(nodes[i].paging, old(nodes[i].paging.View())); }
          WholeIs(i);
          if nodes[i].allowsPaging && old(AllRanges()) && Located() {
            EarlierNow(i, old(SnapOf(i)));
            OtherKept(chosen, start, blocks, i, old(SnapOf(i)));
          }
        }
        Collected(old(AllRanges()) && Located(), old(WholeChains()) && (complete || n == 1));
      }
    }

    lemma NodeBefore(i: nat)
      requires Valid() && i < |nodes|
      ensures nodes[i].allowsPaging ==>
        && nodes[i].paging != null && SnapOf(i).Tabled() && |SnapOf(i).range| == |SnapOf(i).table|
        && (AllRanges() ==> SnapOf(i).RangesOk()) 
        && SnapOf(i).base == nodes[i].heap.saddr && SnapOf(i).virt == nodes[i].paging.saddr
        && SnapOf(i).root == tables.root && SnapOf(i).mem == tables.mem
        && SnapOf(i).table == nodes[i].heap.entries[..] && SnapOf(i).range == nodes[i].paging.entries[..]
      ensures WholeChains() ==>
        && WellFormed(nodes[i].heap.entries[..])
        && (nodes[i].paging != null ==> WellFormed(nodes[i].paging.entries[..]))
      ensures nodes[i].heap.View().table == nodes[i].heap.entries[..]
      ensures nodes[i].paging != null ==> nodes[i].paging.View().table == nodes[i].paging.entries[..]
    {
      WholeIs(i);
      hide PageTables.Valid, Path, Leaf, Missing, Snap.RangesOk, Snap.Tabled;
      if nodes[i].allowsPaging {
        ReadyNode(i);
        NodeTabled(i);
      }
    }

    lemma Collected(ranges: bool, whole: bool)
      requires Valid()
      requires ranges ==> forall i: nat :: i < |nodes| && nodes[i].allowsPaging && nodes[i].paging != null ==>
        SnapOf(i).RangesOk()
      requires whole ==> forall i: nat :: i < |nodes| ==> WholeNode(i)
      ensures (ranges ==> AllRanges()) && (whole ==> WholeChains())
    {
      hide Snap.RangesOk, WellFormed;
    }

    lemma PassChosen(c: nat, address: nat, n: nat, complete: bool, blocks: seq<nat>, s: Snap, was: State)
      requires Valid() && c < |nodes| && nodes[c].allowsPaging && nodes[c].paging != null && n > 0 && Earlier(c, s)
      requires was.table == s.range && nodes[c].paging.View() == MallocStepBy(complete, was, n)
      requires FirstFit(s.range, n) >= 0 && address == nodes[c].paging.Address(FirstFit(s.range, n))
      requires Backed(s.table, nodes[c].heap.entries[..], blocks, n)
      requires RangeFrames(Page(address), nodes[c].heap, blocks)
      requires forall p: nat :: p < PAGES ==>
        tables.LeafOf(p) == RangeLeaf(Leaf(s.mem, s.root, Path(p)), p, Page(address), nodes[c].heap, blocks)
      ensures Passed(s, SnapOf(c), FirstFit(s.range, n), n, blocks)
      ensures s.RangesOk() ==> SnapOf(c).RangesOk()
      ensures WellFormed(s.table) && WellFormed(s.range) && (complete || n == 1) ==> WholeNode(c)
    {
      ghost var start := FirstFit(s.range, n);
      MarkedBy(complete, was, n);
      hide *;
      HeapView(nodes[c].paging);
      SecondPassBacked(c, start, n, blocks, s);
      if s.RangesOk() { PassedOk(s, SnapOf(c), start, n, blocks); }
      if WellFormed(s.table) && WellFormed(s.range) && (complete || n == 1) {
        TakenWhole(s.table, nodes[c].heap.entries[..], blocks, n);
        MarkTakenAllocs(s.range, start, n);
        WholeIs(c);
      }
    }

    lemma WholeIs(i: nat)
      requires Separate() && i < |nodes|
      ensures WholeNode(i) <==>
        && WellFormed(nodes[i].heap.entries[..])
        && (nodes[i].paging != null ==> WellFormed(nodes[i].paging.entries[..]))
    {
    }

    // ------------------------------------------------------------ freeing

    /** A gap between any two data heaps: ownership lookup counts the end address as inside
        (heap.c:90-93). */
    static ghost predicate Gaps(nodes: seq<Node>) {
      forall i, j :: 0 <= i < |nodes| && 0 <= j < |nodes| && i != j ==>
        nodes[i].heap.End() < nodes[j].heap.saddr || nodes[j].heap.End() < nodes[i].heap.saddr
    }

    /** The data heaps lie below `maxEnd` with gaps between them. */
    ghost predicate Located()
      reads this
    {
      Gaps(nodes) && forall i :: 0 <= i < |nodes| ==> nodes[i].heap.End() <= maxEnd
    }

    /** multiheap_get_heap_for_address. */
    method HeapFor(address: nat) returns (c: nat)
      ensures c <= |nodes| && (c < |nodes| ==> Within(nodes[c].heap, address))
      ensures forall i :: 0 <= i < c ==> !Within(nodes[i].heap, address)
    {
      c := 0;
      while c < |nodes| && !Within(nodes[c].heap, address)
        invariant c <= |nodes| && forall i :: 0 <= i < c ==> !Within(nodes[i].heap, address)
      {
        c := c + 1;
      }
    }

    /** multiheap_get_paging_heap_for_address. */
    method PagingHeapFor(address: nat) returns (c: nat)
      requires forall i :: 0 <= i < |nodes| && nodes[i].allowsPaging ==> nodes[i].paging != null
      ensures c <= |nodes| && (c < |nodes| ==> nodes[c].allowsPaging && Within(nodes[c].paging, address))
      ensures forall i :: 0 <= i < c && nodes[i].allowsPaging ==> !Within(nodes[i].paging, address)
    {
      c := 0;
      while c < |nodes|
        invariant c <= |nodes| && forall i :: 0 <= i < c && nodes[i].allowsPaging ==> !Within(nodes[i].paging, address)
      {
        if nodes[c].allowsPaging && Within(nodes[c].paging, address) {
          return;
        }
        c := c + 1;
      }
    }

    /** The data heaps do not overlap, but one may end where another starts. */
    ghost predicate Disjoint()
      reads this
    {
      forall i, j :: 0 <= i < |nodes| && 0 <= j < |nodes| && i != j ==>
        nodes[i].heap.End() <= nodes[j].heap.saddr || nodes[j].heap.End() <= nodes[i].heap.saddr
    }

    /** The lookup of an allocated address finds another heap `k` than its owner exactly
        when a heap earlier in the list ends at that address, which is then the first of
        the owner. */
    lemma HeapOwnerIff(c: nat, b: nat, k: nat)
      requires Valid() && Disjoint() && c < |nodes| && b < nodes[c].heap.entries.Length
      requires k <= |nodes| && (k < |nodes| ==> Within(nodes[k].heap, nodes[c].heap.Address(b)))
      requires forall i :: 0 <= i < k ==> !Within(nodes[i].heap, nodes[c].heap.Address(b))
      ensures k == c <==> forall i :: 0 <= i < c ==> nodes[i].heap.End() != nodes[c].heap.Address(b)
      ensures k != c ==> k < c && b == 0
    {
      InPoolWithin(nodes[c].heap, b);
      hide Multi.Valid, Heap.Address;
      forall i | 0 <= i < |nodes| && i != c
        ensures Within(nodes[i].heap, nodes[c].heap.Address(b)) ==>
          nodes[i].heap.End() == nodes[c].heap.saddr == nodes[c].heap.Address(b)
        ensures nodes[i].heap.End() == nodes[c].heap.Address(b) ==> Within(nodes[i].heap, nodes[c].heap.Address(b))
      {
      }
    }

    /** The same for the paging heaps, among the nodes that allow paging. */
    lemma PagingOwnerIff(c: nat, b: nat, k: nat)
      requires Valid() && Disjoint() && c < |nodes| && nodes[c].allowsPaging && nodes[c].paging != null
      requires b < nodes[c].paging.entries.Length
      requires forall i :: 0 <= i < |nodes| && nodes[i].allowsPaging ==> nodes[i].paging != null
      requires k <= |nodes|
      requires (k < |nodes| ==> nodes[k].allowsPaging && Within(nodes[k].paging, nodes[c].paging.Address(b)))
      requires forall i :: 0 <= i < k && nodes[i].allowsPaging ==> !Within(nodes[i].paging, nodes[c].paging.Address(b))
      ensures k == c <==>
              forall i :: 0 <= i < c && nodes[i].allowsPaging ==> nodes[i].paging.End() != nodes[c].paging.Address(b)
      ensures k != c ==> k < c && b == 0
    {
      InPoolWithin(nodes[c].paging, b);
      forall i | 0 <= i < |nodes| && nodes[i].allowsPaging
        ensures nodes[i].paging.saddr == maxEnd + nodes[i].heap.saddr
        ensures nodes[i].paging.End() == maxEnd + nodes[i].heap.End()
      {
        PagingShift(i);
      }
      hide Multi.Valid, Heap.Address, Heap.End;
      forall i | 0 <= i < |nodes| && i != c && nodes[i].allowsPaging
        ensures Within(nodes[i].paging, nodes[c].paging.Address(b)) ==>
          nodes[i].paging.End() == nodes[c].paging.saddr == nodes[c].paging.Address(b)
        ensures nodes[i].paging.End() == nodes[c].paging.Address(b) ==>
          Within(nodes[i].paging, nodes[c].paging.Address(b))
      {
      }
    }

    /** heap_free in the data heap of one node. */
    method FreeIn(c: nat, ptr: nat)
      requires Valid() && c < |nodes| && nodes[c].heap.InPool(ptr)
      modifies nodes[c].heap, nodes[c].heap.entries
      ensures Valid()
      ensures nodes[c].heap.View() == FreeStep(old(nodes[c].heap.View()), nodes[c].heap.BlockOf(ptr))
      ensures forall i: nat :: i < |nodes| && i != c ==> nodes[i].heap.View() == old(nodes[i].heap.View())
      ensures forall i: nat :: i < |nodes| && nodes[i].paging != null ==>
        nodes[i].paging.View() == old(nodes[i].paging.View())
    {
      assert forall i: nat :: i < |nodes| ==>
        Apart(nodes[c].heap, nodes[i].paging) && (i != c ==> Apart(nodes[c].heap, nodes[i].heap));
      hide Heap.Sane, Heap.Valid, Heap.View, Heap.Live, PageTables.Valid, PageTables.Premapped, FreeStep;
      nodes[c].heap.Free(ptr);
    }

    /** heap_free in the paging heap of one node. */
    method FreePagingIn(c: nat, ptr: nat)
      requires Valid() && c < |nodes| && nodes[c].paging != null && nodes[c].paging.InPool(ptr)
      modifies nodes[c].paging, nodes[c].paging.entries
      ensures Valid()
      ensures nodes[c].paging.View() == FreeStep(old(nodes[c].paging.View()), nodes[c].paging.BlockOf(ptr))
      ensures forall i: nat :: i < |nodes| ==> nodes[i].heap.View() == old(nodes[i].heap.View())
      ensures forall i: nat :: i < |nodes| && i != c && nodes[i].paging != null ==>
        nodes[i].paging.View() == old(nodes[i].paging.View())
    {
      assert forall i: nat :: i < |nodes| ==> Apart(nodes[i].heap, nodes[c].paging);
      assert forall i: nat :: i < |nodes| && i != c ==> Apart(nodes[i].paging, nodes[c].paging);
      hide Heap.Sane, Heap.Valid, Heap.View, Heap.Live, PageTables.Valid, PageTables.Premapped, FreeStep;
      nodes[c].paging.Free(ptr);
    }

    /** The block callback of a paging heap (multiheap.c:385-388), for each freed block. */
    method UnmapRange(c: nat, ptr: nat, n: nat, ghost start: nat)
      requires Valid() && c < |nodes| && nodes[c].allowsPaging && nodes[c].paging != null
      requires start + n <= nodes[c].heap.entries.Length && n > 0 && ptr == nodes[c].paging.Address(start)
      modifies tables
      ensures Valid() && tables.pool == old(tables.pool) && tables.mem.Keys == old(tables.mem.Keys)
      ensures forall p: nat :: p < PAGES ==>
        tables.LeafOf(p) == if Page(ptr) <= p < Page(ptr) + n then Mapped(old(tables.LeafOf(p)), 0, 0)
          else old(tables.LeafOf(p))
      ensures SlotsKept(old(tables.mem), tables.mem, tables.root)
    {
      hide Multi.Valid, PageTables.Valid, Page, Heap.Address, Path, Leaf, Missing, Mapped, SlotsKept;
      SlotsKeptRefl(tables.mem, tables.root);
      ghost var first := Page(ptr);
      var current := ptr;
      for i := 0 to n
        invariant Valid() && (i < n ==> current == nodes[c].paging.Address(start + i))
        invariant tables.pool == old(tables.pool) && tables.mem.Keys == old(tables.mem.Keys)
        invariant forall p: nat :: p < PAGES ==>
          tables.LeafOf(p) == if first <= p < first + i then Mapped(old(tables.LeafOf(p)), 0, 0)
            else old(tables.LeafOf(p))
        invariant SlotsKept(old(tables.mem), tables.mem, tables.root)
      {
        PremappedPage(c, start);
        PremappedPage(c, start + i);
        ghost var mem := tables.mem;
        MapPage(current, 0, 0);
        SlotsKeptTrans(old(tables.mem), mem, tables.mem, tables.root);
        NextPage(nodes[c].paging, start + i);
        current := current + BLOCK_SIZE;
      }
    }

    /** heap_free of block `start` of a paging heap (multiheap.c:266), whose callback unmaps
        the page of each block that is freed. */
    method ReleaseRange(c: nat, ptr: nat, ghost start: nat)
      requires Valid() && c < |nodes| && nodes[c].allowsPaging && nodes[c].paging != null
      requires start < nodes[c].paging.entries.Length && ptr == nodes[c].paging.Address(start)
      modifies nodes[c].paging, nodes[c].paging.entries, tables
      ensures Valid()
      ensures nodes[c].paging.View() == FreeStep(old(nodes[c].paging.View()), start)
      ensures tables.pool == old(tables.pool) && tables.mem.Keys == old(tables.mem.Keys)
      ensures SlotsKept(old(tables.mem), tables.mem, tables.root)
      ensures forall p: nat :: p < PAGES ==>
        tables.LeafOf(p) ==
        if Page(ptr) <= p < Page(ptr) + ChainLength(old(nodes[c].paging.entries[..]), start)
          then Mapped(old(tables.LeafOf(p)), 0, 0) else old(tables.LeafOf(p))
      ensures forall i: nat :: i < |nodes| ==> nodes[i].heap.View() == old(nodes[i].heap.View())
      ensures forall i: nat :: i < |nodes| && i != c && nodes[i].paging != null ==>
        nodes[i].paging.View() == old(nodes[i].paging.View())
    {
      PagingShift(c);
      hide Multi.Valid, Multi.Separate, Heap.Sane, Heap.View, Heap.Address, Page, FreeStep, Mapped, Path, Leaf,
           Heap.BlockOf, SlotsKept, ChainLength;
      var n := ChainLength(nodes[c].paging.entries[..], nodes[c].paging.BlockOf(ptr));
      InPoolAt(nodes[c].paging, start);
      FreePagingIn(c, ptr);
      UnmapRange(c, ptr, n, start);
    }

    /** The first page of a paging heap. */
    ghost function FirstPage(c: nat): nat
      reads this
      requires c < |nodes| && nodes[c].paging != null
    {
      nodes[c].paging.saddr / PAGE_SIZE
    }

    lemma OwnPage(c: nat, k: nat)
      requires Valid() && c < |nodes| && nodes[c].allowsPaging && nodes[c].paging != null
      requires k < nodes[c].paging.entries.Length
      ensures Page(nodes[c].paging.Address(k)) == FirstPage(c) + k < PAGES
    {
      PagingShift(c);
      PremappedPage(c, k);
    }

    /** The owners of an answer. */
    lemma AnswerOwner(c: nat, k: nat, a: Answer)
      requires Valid() && Located() && c < |nodes| && nodes[c].allowsPaging && nodes[c].paging != null
      requires PageAnswers(SnapOf(c), k, a)
      ensures var ptr := Pointed(SnapOf(c), k, a);
              && (ptr < maxEnd <==> !a.Itself?)
              && (forall i :: 0 <= i < |nodes| && !a.Itself? ==> (Within(nodes[i].heap, ptr) <==> a.Backing? && i == c))
              && (a.Backing? ==> ptr == nodes[c].heap.Address(a.b) && nodes[c].heap.InPool(ptr))
              && (a.Itself? ==> ptr == nodes[c].paging.Address(k) && nodes[c].paging.InPool(ptr))
    {
      hide Path, Leaf, Missing, SlotZero, Target, AllLegal, PageTables.Valid, PageTables.Premapped, AllApart,
           Snap.TargetAt, Snap.Found;
      InPoolAt(nodes[c].heap, 0);
      if a.Backing? { InPoolAt(nodes[c].heap, a.b); }
      if a.Itself? { InPoolAt(nodes[c].paging, k); }
    }

    /** Under the gaps the paging heap that the lookup finds is the owner. */
    lemma PagingOwner(c: nat, b: nat, k: nat)
      requires Valid() && Located() && c < |nodes| && nodes[c].allowsPaging && nodes[c].paging != null
      requires b < nodes[c].paging.entries.Length && k < |nodes| && nodes[k].allowsPaging
      requires nodes[k].paging != null
      ensures Within(nodes[k].paging, nodes[c].paging.Address(b)) <==> k == c
      ensures nodes[c].paging.InPool(nodes[c].paging.Address(b))
    {
      InPoolAt(nodes[c].paging, b);
      PagingShift(c);
      PagingShift(k);
    }

    lemma OnlyOwner(c: nat, b: nat)
      requires Valid() && Located() && c < |nodes| && nodes[c].allowsPaging && nodes[c].paging != null
      requires b < nodes[c].paging.entries.Length
      ensures nodes[c].paging.Sane() && nodes[c].paging.InPool(nodes[c].paging.Address(b))
      ensures forall k :: 0 <= k < |nodes| && nodes[k].allowsPaging ==>
        nodes[k].paging != null && (Within(nodes[k].paging, nodes[c].paging.Address(b)) <==> k == c)
    {
      PagingOwner(c, b, c);
      hide Within, Heap.Address, Located;
      forall k | 0 <= k < |nodes| && nodes[k].allowsPaging
        ensures nodes[k].paging != null && (Within(nodes[k].paging, nodes[c].paging.Address(b)) <==> k == c)
      {
        ReadyNode(k);
        PagingOwner(c, b, k);
      }
    }

    /** multiheap_free of what paging_get_physical_address gave for one page: nothing for
        NULL, a block of the data heap, or, where the page still points to itself, that
        free block of the paging heap. No block is counted for the latter, so the loop of
        lines 255-262 does not run again. */
    method FreePhysical(ptr: nat, ghost c: nat, ghost k: nat, ghost a: Answer)
      requires Valid() && Located() && c < |nodes| && nodes[c].allowsPaging && nodes[c].paging != null
      requires PageAnswers(SnapOf(c), k, a) && ptr == Pointed(SnapOf(c), k, a)
      modifies nodes[c].heap, nodes[c].heap.entries, nodes[c].paging, nodes[c].paging.entries, tables
      ensures Valid()
      ensures nodes[c].heap.View() == AfterData(old(nodes[c].heap.View()), a)
      ensures nodes[c].paging.View() == AfterRange(old(nodes[c].paging.View()), k, a)
      ensures tables.pool == old(tables.pool) && tables.mem.Keys == old(tables.mem.Keys)
      ensures SlotsKept(old(tables.mem), tables.mem, tables.root)
      ensures forall p: nat :: p < PAGES ==>
        tables.LeafOf(p) == if a.Itself? && p == FirstPage(c) + k
          then Mapped(old(tables.LeafOf(p)), 0, 0) else old(tables.LeafOf(p))
      ensures forall i: nat :: i < |nodes| && i != c ==>
        && nodes[i].heap.View() == old(nodes[i].heap.View())
        && (nodes[i].paging != null ==> nodes[i].paging.View() == old(nodes[i].paging.View()))
    {
      hide *;
      AnswerOwner(c, k, a);
      NodeViews(c);
      AnswerEntries(SnapOf(c), k, a);
      AfterCases(nodes[c].heap.View(), nodes[c].paging.View(), k, a);
      SlotsKeptRefl(tables.mem, tables.root);
      if maxEnd <= ptr {
        ItselfFree(c, k);
        OnlyOwner(c, k);
        OwnPage(c, k);
        var i := PagingHeapFor(ptr);
        var n := nodes[i].paging.AllocationBlockCount(ptr);
        assert i == c && n == 0;
        ReleaseRange(i, ptr, k);
      } else {
        var i := HeapFor(ptr);
        if i < |nodes| {
          FreeIn(i, ptr);
        }
      }
    }

    lemma ItselfFree(c: nat, k: nat)
      requires Valid() && c < |nodes| && nodes[c].paging != null && PageAnswers(SnapOf(c), k, Itself)
      ensures k < nodes[c].paging.entries.Length
      ensures ChainLength(nodes[c].paging.entries[..], k) == 1 && BlockCount(nodes[c].paging.entries[..], k) == 0
    {
      FreeFacts();
    }

    /** multiheap.c:257: what paging_get_physical_address gives for page `k`. */
    lemma LookupAnswers(c: nat, k: nat, a: Answer, va: nat)
      requires Valid() && c < |nodes| && nodes[c].allowsPaging && nodes[c].paging != null
      requires PageAnswers(SnapOf(c), k, a) && va == nodes[c].paging.Address(k)
      ensures tables.GetPhysicalAddress(va) == Pointed(SnapOf(c), k, a)
    {
      var p := SnapOf(c).PageAt(k);
      PagingShift(c);
      PremappedPage(c, k);
      SnapPage(c, k);
      hide Path, Leaf, Missing, SlotZero, Lookup, Tree, Page, Heap.Address, Separate, PagingReady;
      LookupLeaf(tables.mem, tables.owner, tables.root, Path(p));
    }

    lemma NodeViews(c: nat)
      requires Valid() && c < |nodes| && nodes[c].paging != null
      ensures SnapOf(c).table == nodes[c].heap.entries[..] == nodes[c].heap.View().table
      ensures SnapOf(c).range == nodes[c].paging.entries[..] == nodes[c].paging.View().table
      ensures SnapOf(c).base == nodes[c].heap.saddr && SnapOf(c).virt == nodes[c].paging.saddr
      ensures SnapOf(c).root == tables.root && SnapOf(c).mem == tables.mem
      ensures |SnapOf(c).table| == nodes[c].heap.entries.Length < WORD
      ensures |SnapOf(c).range| == nodes[c].paging.entries.Length && 2 * |SnapOf(c).range| < WORD
      ensures Viewed(SnapOf(c), nodes[c].heap.View(), nodes[c].paging.View())
      ensures nodes[c].paging.View().used < WORD && nodes[c].paging.View().free < WORD
      ensures CountsExact(nodes[c].heap) <==> Exact(nodes[c].heap.View())
    {
    }

    /** The other pages, and what the lookup finds, have not changed. */
    lemma OthersStand(c: nat, s: Snap, k: nat)
      requires Valid() && c < |nodes| && nodes[c].allowsPaging && nodes[c].paging != null && Earlier(c, s)
      requires forall p: nat :: p < PAGES && p != FirstPage(c) + k ==>
        tables.LeafOf(p) == Leaf(s.mem, s.root, Path(p))
      ensures forall j: nat :: j < |s.range| && j != k ==>
        SnapOf(c).Found(j) == s.Found(j) && SnapOf(c).TargetAt(j) == s.TargetAt(j)
    {
      forall j: nat | j < |s.range| && j != k
        ensures SnapOf(c).Found(j) == s.Found(j) && SnapOf(c).TargetAt(j) == s.TargetAt(j)
      {
        SnapPage(c, j);
        assert s.PageAt(j) == SnapOf(c).PageAt(j) < PAGES && Missing(s.mem, s.root, Path(s.PageAt(j))) == 0;
        hide Multi.Valid, Path, Leaf, Missing, Page, SlotZero, Target, Separate, Mapped;
      }
    }

    /** The node as it is, for later. */
    lemma NodeEarlier(c: nat)
      requires Valid() && c < |nodes| && nodes[c].allowsPaging && nodes[c].paging != null
      ensures Earlier(c, SnapOf(c)) && Viewed(SnapOf(c), nodes[c].heap.View(), nodes[c].paging.View())
      ensures CountsExact(nodes[c].heap) ==> Exact(nodes[c].heap.View())
      ensures forall p: nat :: tables.LeafOf(p) == Leaf(SnapOf(c).mem, SnapOf(c).root, Path(p))
    {
      hide Path, Leaf, Missing;
      NodeTabled(c);
      NodeViews(c);
      SlotsKeptRefl(tables.mem, tables.root);
    }

    lemma EarlierParts(c: nat, s: Snap)
      requires Valid() && c < |nodes| && nodes[c].paging != null && Earlier(c, s)
      ensures s.base == nodes[c].heap.saddr && s.virt == nodes[c].paging.saddr && s.root == tables.root
    {
    }

    lemma AfterOne(c: nat, s: Snap, data: State, range: State, k: nat, answers: seq<Answer>)
      requires Valid() && c < |nodes| && nodes[c].allowsPaging && nodes[c].paging != null && Earlier(c, s)
      requires Viewed(s, data, range) && answers != [] && Answered(s, k, answers)
      requires nodes[c].heap.View() == AfterData(data, answers[0])
      requires nodes[c].paging.View() == AfterRange(range, k, answers[0])
      requires forall p: nat :: p < PAGES && p != FirstPage(c) + k ==>
        tables.LeafOf(p) == Leaf(s.mem, s.root, Path(p))
      ensures Answered(SnapOf(c), k + 1, answers[1..])
      ensures nodes[c].heap.entries[..] == FreeEach(s.table, Freed([answers[0]]))
      ensures nodes[c].paging.View() == Counted(range, -(Selfs([answers[0]]) as int))
      ensures Exact(data) ==> CountsExact(nodes[c].heap)
    {
      hide *;
      NodeViews(c);
      EarlierParts(c, s);
      HeadAnswers(s, k, answers);
      AnswerEntries(s, k, answers[0]);
      AfterAnswer(s, data, range, k, answers[0]);
      OthersStand(c, s, k);
      RestAnswered(s, SnapOf(c), k, answers);
    }

    /** One page of the loop: what the lookup answered for it is freed. The answers for the
        pages behind it stand. */
    method ReturnOne(c: nat, phys: nat, ghost k: nat, ghost answers: seq<Answer>)
      requires Valid() && Located() && c < |nodes| && nodes[c].allowsPaging && nodes[c].paging != null
      requires answers != [] && Answered(SnapOf(c), k, answers) && phys == Pointed(SnapOf(c), k, answers[0])
      modifies nodes[c].heap, nodes[c].heap.entries, nodes[c].paging, nodes[c].paging.entries, tables
      ensures Valid() && (old(CountsExact(nodes[c].heap)) ==> CountsExact(nodes[c].heap))
      ensures Answered(SnapOf(c), k + 1, answers[1..])
      ensures nodes[c].heap.entries[..] == FreeEach(old(nodes[c].heap.entries[..]), Freed([answers[0]]))
      ensures nodes[c].paging.View() == Counted(old(nodes[c].paging.View()), -(Selfs([answers[0]]) as int))
      ensures tables.pool == old(tables.pool) && tables.mem.Keys == old(tables.mem.Keys)
      ensures SlotsKept(old(tables.mem), tables.mem, tables.root)
      ensures forall p: nat :: p < PAGES ==>
        tables.LeafOf(p) == if answers[0].Itself? && p == FirstPage(c) + k
          then Mapped(old(tables.LeafOf(p)), 0, 0) else old(tables.LeafOf(p))
      ensures forall i: nat :: i < |nodes| && i != c ==>
        && nodes[i].heap.View() == old(nodes[i].heap.View())
        && (nodes[i].paging != null ==> nodes[i].paging.View() == old(nodes[i].paging.View()))
    {
      NodeEarlier(c);
      HeadAnswers(SnapOf(c), k, answers);
      hide *;
      ghost var s, data, range := SnapOf(c), nodes[c].heap.View(), nodes[c].paging.View();
      FreePhysical(phys, c, k, answers[0]);
      AfterOne(c, s, data, range, k, answers);
    }

    /** The loop has dealt with the first `j` of the answers for the pages from `k` on; `t`,
        `v` and `mem` are the table of the data heap, the paging heap and the page tables
        before the loop. */
    ghost predicate Returned(c: nat, k: nat, answers: seq<Answer>, j: nat, t: seq<BlockEntry>, v: State, mem: Memory)
      reads this, tables, repr
      requires Valid() && c < |nodes| && nodes[c].paging != null && j <= |answers|
    {
      && Answered(SnapOf(c), k + j, answers[j..])
      && nodes[c].heap.entries[..] == FreeEach(t, Freed(answers[..j]))
      && nodes[c].paging.View() == Counted(v, -(Selfs(answers[..j]) as int))
      && SlotsKept(mem, tables.mem, tables.root)
      && forall p: nat :: p < PAGES ==>
        tables.LeafOf(p) == SelfLeaf(Leaf(mem, tables.root, Path(p)), p, FirstPage(c) + k,
          answers[..j])
    }

    lemma ReturnedNone(c: nat, k: nat, answers: seq<Answer>)
      requires Valid() && c < |nodes| && nodes[c].paging != null && Answered(SnapOf(c), k, answers)
      ensures Returned(c, k, answers, 0, nodes[c].heap.entries[..], nodes[c].paging.View(), tables.mem)
      ensures forall p: nat :: tables.LeafOf(p) == Leaf(tables.mem, tables.root, Path(p))
    {
      NodeViews(c);
      NoneFreed(nodes[c].heap.entries[..], answers, FirstPage(c) + k);
      CountedNone(nodes[c].paging.View());
      SlotsKeptRefl(tables.mem, tables.root);
      hide Multi.Valid, Path, Leaf, Missing, SlotsKept, Answered, Freed, FreeEach, Selfs, Counted, Separate;
    }

    lemma ReturnedFrom(c: nat, k: nat, answers: seq<Answer>, j: nat, t: seq<BlockEntry>, v: State, mem: Memory)
      requires Valid() && c < |nodes| && nodes[c].paging != null && j <= |answers|
      requires Answered(SnapOf(c), k + j, answers[j..]) && SlotsKept(mem, tables.mem, tables.root)
      requires nodes[c].heap.entries[..] == FreeEach(t, Freed(answers[..j]))
      requires nodes[c].paging.View() == Counted(v, -(Selfs(answers[..j]) as int))
      requires forall p: nat :: p < PAGES ==>
        tables.LeafOf(p) == SelfLeaf(Leaf(mem, tables.root, Path(p)), p, FirstPage(c) + k,
          answers[..j])
      ensures Returned(c, k, answers, j, t, v, mem)
    {
      hide Multi.Valid, Path, Leaf, Missing, SlotsKept, Answered, Freed, FreeEach, Selfs, Counted, Separate, SelfLeaf,
           Mapped, PageTables.LeafOf, Heap.View;
    }

    lemma ReturnedNext(c: nat, k: nat, answers: seq<Answer>, j: nat, t: seq<BlockEntry>, v: State, mem: Memory,
        e: seq<BlockEntry>, w: State, was: Memory)
      requires Valid() && c < |nodes| && nodes[c].paging != null && j < |answers|
      requires e == FreeEach(t, Freed(answers[..j])) && w == Counted(v, -(Selfs(answers[..j]) as int))
      requires SlotsKept(mem, was, tables.root) && SlotsKept(was, tables.mem, tables.root)
      requires forall p: nat :: p < PAGES ==>
        Leaf(was, tables.root, Path(p)) == SelfLeaf(Leaf(mem, tables.root, Path(p)), p,
          FirstPage(c) + k, answers[..j])
      requires Answered(SnapOf(c), k + j + 1, answers[j..][1..])
      requires nodes[c].heap.entries[..] == FreeEach(e, Freed([answers[j]]))
      requires nodes[c].paging.View() == Counted(w, -(Selfs([answers[j]]) as int))
      requires forall p: nat :: p < PAGES ==>
        tables.LeafOf(p) ==
        if answers[j].Itself? && p == FirstPage(c) + k + j
          then Mapped(Leaf(was, tables.root, Path(p)), 0, 0) else Leaf(was, tables.root, Path(p))
      ensures Returned(c, k, answers, j + 1, t, v, mem)
    {
      hide *;
      NextFreed(t, answers, j, FirstPage(c) + k);
      CountedTwice(v, -(Selfs(answers[..j]) as int), -(Selfs([answers[j]]) as int));
      SlotsKeptTrans(mem, was, tables.mem, tables.root);
      ReturnedFrom(c, k, answers, j + 1, t, v, mem);
    }

    lemma ReturnedParts(c: nat, k: nat, answers: seq<Answer>, j: nat, t: seq<BlockEntry>, v: State, mem: Memory)
      requires Valid() && c < |nodes| && nodes[c].paging != null && j <= |answers|
      requires Returned(c, k, answers, j, t, v, mem)
      ensures Answered(SnapOf(c), k + j, answers[j..]) && SnapOf(c).mem == tables.mem && SnapOf(c).root == tables.root
      ensures nodes[c].heap.entries[..] == FreeEach(t, Freed(answers[..j]))
      ensures nodes[c].paging.View() == Counted(v, -(Selfs(answers[..j]) as int))
      ensures SlotsKept(mem, tables.mem, tables.root)
      ensures forall p: nat :: p < PAGES ==>
        && tables.LeafOf(p) == Leaf(tables.mem, tables.root, Path(p))
        && tables.LeafOf(p) == SelfLeaf(Leaf(mem, tables.root, Path(p)), p, FirstPage(c) + k,
          answers[..j])
    {
      hide Multi.Valid, Path, Leaf, Missing, SlotsKept, Answered, Freed, FreeEach, Selfs, Counted, Separate, SelfPage,
           Mapped;
    }

    method ReturnNext(c: nat, va: nat, ghost k: nat, ghost answers: seq<Answer>, ghost j: nat, ghost t: seq<BlockEntry>,
        ghost v: State, ghost mem: Memory)
      requires Valid() && Located() && c < |nodes| && nodes[c].allowsPaging && nodes[c].paging != null
      requires j < |answers| && Returned(c, k, answers, j, t, v, mem) && va == nodes[c].paging.Address(k + j)
      modifies nodes[c].heap, nodes[c].heap.entries, nodes[c].paging, nodes[c].paging.entries, tables
      ensures Valid() && (old(CountsExact(nodes[c].heap)) ==> CountsExact(nodes[c].heap))
      ensures Returned(c, k, answers, j + 1, t, v, mem)
      ensures tables.pool == old(tables.pool) && tables.mem.Keys == old(tables.mem.Keys)
      ensures forall i: nat :: i < |nodes| && i != c ==>
        && nodes[i].heap.View() == old(nodes[i].heap.View())
        && (nodes[i].paging != null ==> nodes[i].paging.View() == old(nodes[i].paging.View()))
    {
      hide *;
      ghost var e, w, was := nodes[c].heap.entries[..], nodes[c].paging.View(), tables.mem;
      ReturnedParts(c, k, answers, j, t, v, mem);
      TailAnswers(SnapOf(c), answers, k, j);
      LookupAnswers(c, k + j, answers[j], va);
      var phys := tables.GetPhysicalAddress(va);
      ReturnOne(c, phys, k + j, answers[j..]);
      ReturnedNext(c, k, answers, j, t, v, mem, e, w, was);
    }

    /** multiheap.c:255-262: frees what lies behind the pages at `ptr + i * 4096` for `i`
        from `from` to `from + n`. The source starts at the block number of `ptr`; what it
        intends starts at 0. */
    method ReturnBlocks(c: nat, ptr: nat, from: nat, n: nat, ghost start: nat, ghost answers: seq<Answer>)
      requires Valid() && Located() && c < |nodes| && nodes[c].allowsPaging && nodes[c].paging != null
      requires ptr == nodes[c].paging.Address(start) && |answers| == n
      requires Answered(SnapOf(c), start + from, answers)
      modifies nodes[c].heap, nodes[c].heap.entries, nodes[c].paging, nodes[c].paging.entries, tables
      ensures Valid() && (old(CountsExact(nodes[c].heap)) ==> CountsExact(nodes[c].heap))
      ensures nodes[c].heap.entries[..] == FreeEach(old(nodes[c].heap.entries[..]), Freed(answers))
      ensures nodes[c].paging.View() == Counted(old(nodes[c].paging.View()), -(Selfs(answers) as int))
      ensures tables.pool == old(tables.pool) && tables.mem.Keys == old(tables.mem.Keys)
      ensures SlotsKept(old(tables.mem), tables.mem, tables.root)
      ensures forall p: nat :: p < PAGES ==>
        tables.LeafOf(p) ==
        SelfLeaf(old(tables.LeafOf(p)), p, FirstPage(c) + (start + from), answers)
      ensures forall i: nat :: i < |nodes| && i != c ==>
        && nodes[i].heap.View() == old(nodes[i].heap.View())
        && (nodes[i].paging != null ==> nodes[i].paging.View() == old(nodes[i].paging.View()))
    {
      hide *;
      ghost var t, v, mem, k := nodes[c].heap.entries[..], nodes[c].paging.View(), tables.mem, start + from;
      ReturnedNone(c, k, answers);
      var i := from;
      while i < from + n
        invariant from <= i <= from + n && Valid() && Located()
        invariant Returned(c, k, answers, i - from, t, v, mem)
        invariant old(CountsExact(nodes[c].heap)) ==> CountsExact(nodes[c].heap)
        invariant tables.pool == old(tables.pool) && tables.mem.Keys == old(tables.mem.Keys)
        invariant forall h: nat :: h < |nodes| && h != c ==>
          && nodes[h].heap.View() == old(nodes[h].heap.View())
          && (nodes[h].paging != null ==> nodes[h].paging.View() == old(nodes[h].paging.View()))
      {
        AddressShift(nodes[c].paging, start, i);
        ReturnNext(c, ptr + i * BLOCK_SIZE, k, answers, i - from, t, v, mem);
        i := i + 1;
      }
      ReturnedAll(c, k, answers, t, v, mem);
    }

    lemma ReturnedAll(c: nat, k: nat, answers: seq<Answer>, t: seq<BlockEntry>, v: State, mem: Memory)
      requires Valid() && c < |nodes| && nodes[c].paging != null && Returned(c, k, answers, |answers|, t, v, mem)
      ensures nodes[c].heap.entries[..] == FreeEach(t, Freed(answers))
      ensures nodes[c].paging.View() == Counted(v, -(Selfs(answers) as int))
      ensures SlotsKept(mem, tables.mem, tables.root)
      ensures forall p: nat :: p < PAGES ==>
        tables.LeafOf(p) == SelfLeaf(Leaf(mem, tables.root, Path(p)), p, FirstPage(c) + k, answers)
    {
      hide *;
      assert answers[..|answers|] == answers;
      ReturnedParts(c, k, answers, |answers|, t, v, mem);
    }

    /** multiheap.c:248-253: the owner of a range and its length. */
    method RangeOf(ptr: nat, ghost c: nat, ghost start: nat) returns (k: nat, n: nat)
      requires Valid() && Located() && c < |nodes| && nodes[c].allowsPaging && nodes[c].paging != null
      requires start < nodes[c].paging.entries.Length && ptr == nodes[c].paging.Address(start)
      ensures k == c && nodes[c].paging.InPool(ptr) && nodes[c].paging.BlockOf(ptr) == start
      ensures n == BlockCount(nodes[c].paging.entries[..], start)
    {
      hide *;
      OnlyOwner(c, start);
      InPoolAt(nodes[c].paging, start);
      k := PagingHeapFor(ptr);
      assert k == c;
      n := nodes[k].paging.AllocationBlockCount(ptr);
    }

    /** multiheap.c:255-266 with the answers for the pages from `from` on: what they stand
        for is freed, then the range itself with all that its chain runs into. */
    method FreeFrom(c: nat, ptr: nat, from: nat, n: nat, ghost start: nat, ghost answers: seq<Answer>)
      requires Valid() && Located() && c < |nodes| && nodes[c].allowsPaging && nodes[c].paging != null
      requires start < nodes[c].paging.entries.Length && ptr == nodes[c].paging.Address(start) && |answers| == n
      requires Answered(SnapOf(c), start + from, answers)
      modifies nodes[c].heap, nodes[c].heap.entries, nodes[c].paging, nodes[c].paging.entries, tables
      ensures Valid() && (old(CountsExact(nodes[c].heap)) ==> CountsExact(nodes[c].heap))
      ensures nodes[c].heap.entries[..] == FreeEach(old(nodes[c].heap.entries[..]), Freed(answers))
      ensures nodes[c].paging.View() ==
              FreeStep(Counted(old(nodes[c].paging.View()), -(Selfs(answers) as int)), start)
      ensures tables.pool == old(tables.pool) && tables.mem.Keys == old(tables.mem.Keys)
      ensures SlotsKept(old(tables.mem), tables.mem, tables.root)
      ensures forall p: nat :: p < PAGES ==>
        tables.LeafOf(p) ==
        FreedLeaf(old(tables.LeafOf(p)), p, Page(ptr), ChainLength(old(nodes[c].paging.entries[..]), start),
          FirstPage(c) + (start + from), answers)
      ensures old(WholeNode(c)) && First(old(nodes[c].paging.entries[start])) ==> WholeNode(c)
      ensures forall i: nat :: i < |nodes| && i != c ==>
        && nodes[i].heap.View() == old(nodes[i].heap.View())
        && (nodes[i].paging != null ==> nodes[i].paging.View() == old(nodes[i].paging.View()))
    {
      hide *;
      ghost var s, mem, v := SnapOf(c), tables.mem, nodes[c].paging.View();
      NodeViews(c);
      WholeParts(c);
      AnsweredSingles(s, start + from, answers);
      ReturnBlocks(c, ptr, from, n, start, answers);
      ghost var mid := tables.mem;
      NodeViews(c);
      CountedSame(v, -(Selfs(answers) as int));
      ReleaseRange(c, ptr, start);
      NodeViews(c);
      SlotsKeptTrans(mem, mid, tables.mem, tables.root);
      forall p: nat | p < PAGES
        ensures tables.LeafOf(p) ==
          FreedLeaf(old(tables.LeafOf(p)), p, Page(ptr), ChainLength(s.range, start), FirstPage(c) + (start + from),
            answers)
      {
        FreedLeafTwice(old(tables.LeafOf(p)), p, Page(ptr), ChainLength(s.range, start), FirstPage(c) + (start + from),
          answers);
      }
      WholeAfterFree(c, s, start, Freed(answers), Counted(v, -(Selfs(answers) as int)));
    }

    /** multiheap_free of a virtual range, with the index of lines 255-257 relative to the
        range, as it is meant: what stands behind its pages is freed, then the range with
        all that its chain runs into. A complete chain runs into nothing. */
    method FreeVirtual(ptr: nat, ghost c: nat, ghost start: nat, ghost answers: seq<Answer>)
      requires Valid() && Located() && c < |nodes| && nodes[c].allowsPaging && nodes[c].paging != null
      requires start < nodes[c].paging.entries.Length && ptr == nodes[c].paging.Address(start)
      requires |answers| == BlockCount(nodes[c].paging.entries[..], start) && Answered(SnapOf(c), start, answers)
      modifies nodes[c].heap, nodes[c].heap.entries, nodes[c].paging, nodes[c].paging.entries, tables
      ensures Valid() && (old(CountsExact(nodes[c].heap)) ==> CountsExact(nodes[c].heap))
      ensures nodes[c].heap.entries[..] == FreeEach(old(nodes[c].heap.entries[..]), Freed(answers))
      ensures nodes[c].paging.View() == FreeStep(old(nodes[c].paging.View()), start)
      ensures tables.pool == old(tables.pool) && tables.mem.Keys == old(tables.mem.Keys)
      ensures SlotsKept(old(tables.mem), tables.mem, tables.root)
      ensures forall p: nat :: p < PAGES ==>
        tables.LeafOf(p) ==
        if Page(ptr) <= p < Page(ptr) + ChainLength(old(nodes[c].paging.entries[..]), start)
          then Mapped(old(tables.LeafOf(p)), 0, 0) else old(tables.LeafOf(p))
      ensures old(WholeNode(c)) && First(old(nodes[c].paging.entries[start])) ==> WholeNode(c)
      ensures forall i: nat :: i < |nodes| && i != c ==>
        && nodes[i].heap.View() == old(nodes[i].heap.View())
        && (nodes[i].paging != null ==> nodes[i].paging.View() == old(nodes[i].paging.View()))
    {
      hide *;
      NodeViews(c);
      NodeLegal(c);
      OwnNoSelfs(SnapOf(c), start, answers);
      NoSelfLeaf(answers);
      CountedNone(nodes[c].paging.View());
      var k, n := RangeOf(ptr, c, start);
      FreeFrom(k, ptr, 0, n, start, answers);
      assert start + 0 == start;
    }

    /** multiheap_free of a virtual range as it is written: the loop of lines 253-257 runs
        from the block number of the range, on any table. `behind` are the answers for the
        pages from the range on, as far as the loop reaches. What it frees is what stands
        behind the range exactly when the range starts at block 0 of its heap. */
    method FreeVirtualAsWritten(ptr: nat, ghost c: nat, ghost start: nat, ghost behind: seq<Answer>)
      requires Valid() && Located() && c < |nodes| && nodes[c].allowsPaging && nodes[c].paging != null
      requires start < nodes[c].paging.entries.Length && ptr == nodes[c].paging.Address(start)
      requires |behind| == start + BlockCount(nodes[c].paging.entries[..], start)
      requires Answered(SnapOf(c), start, behind)
      modifies nodes[c].heap, nodes[c].heap.entries, nodes[c].paging, nodes[c].paging.entries, tables
      ensures Valid() && (old(CountsExact(nodes[c].heap)) ==> CountsExact(nodes[c].heap))
      ensures nodes[c].heap.entries[..] == FreeEach(old(nodes[c].heap.entries[..]), Freed(behind[start..]))
      ensures start < |behind| && behind[0].Backing? ==>
        (nodes[c].heap.entries[..] == FreeEach(old(nodes[c].heap.entries[..]), Freed(behind[..|behind| - start])) <==>
         start == 0)
      ensures nodes[c].paging.View() ==
              FreeStep(Counted(old(nodes[c].paging.View()), -(Selfs(behind[start..]) as int)), start)
      ensures tables.pool == old(tables.pool) && tables.mem.Keys == old(tables.mem.Keys)
      ensures SlotsKept(old(tables.mem), tables.mem, tables.root)
      ensures forall p: nat :: p < PAGES ==>
        tables.LeafOf(p) ==
        FreedLeaf(old(tables.LeafOf(p)), p, Page(ptr), ChainLength(old(nodes[c].paging.entries[..]), start),
          FirstPage(c) + (start + start), behind[start..])
      ensures old(WholeNode(c)) && First(old(nodes[c].paging.entries[start])) ==> WholeNode(c)
      ensures forall i: nat :: i < |nodes| && i != c ==>
        && nodes[i].heap.View() == old(nodes[i].heap.View())
        && (nodes[i].paging != null ==> nodes[i].paging.View() == old(nodes[i].paging.View()))
    {
      hide *;
      NodeViews(c);
      TailAnswered(SnapOf(c), start, behind, start);
      if start < |behind| && behind[0].Backing? {
        IndexIff(SnapOf(c), start, behind, start, |behind| - start);
      }
      var k, n := RangeOf(ptr, c, start);
      var from := nodes[k].paging.BlockOf(ptr);
      FreeFrom(k, ptr, from, n, start, behind[start..]);
    }

    lemma NodeLegal(c: nat)
      requires Valid() && c < |nodes| && nodes[c].paging != null
      ensures AllLegal(SnapOf(c).range) && AllLegal(SnapOf(c).table)
    {
    }

    lemma WholeParts(c: nat)
      requires Valid() && c < |nodes| && nodes[c].paging != null
      ensures WholeNode(c) <==> WellFormed(SnapOf(c).table) && WellFormed(SnapOf(c).range)
      ensures forall k: nat :: k < nodes[c].paging.entries.Length ==> SnapOf(c).range[k] == nodes[c].paging.entries[k]
    {
    }

    lemma WholeAfterFree(c: nat, s: Snap, start: nat, freed: set<nat>, v: State)
      requires Valid() && c < |nodes| && nodes[c].paging != null && start < |s.range|
      requires forall b :: b in freed ==> b < |s.table| && s.table[b] == SINGLE
      requires nodes[c].heap.entries[..] == FreeEach(s.table, freed)
      requires v.table == s.range && nodes[c].paging.View() == FreeStep(v, start)
      ensures WellFormed(s.table) && WellFormed(s.range) && First(s.range[start]) ==> WholeNode(c)
    {
      hide WellFormed, MarkFree, FreeEach, Multi.Valid, First;
      if WellFormed(s.table) && WellFormed(s.range) && First(s.range[start]) {
        FreedWhole(s.table, freed);
        MarkFreeAllocs(s.range, start);
      }
    }

    /** FreeVirtual on the range of a second pass that marked a complete chain, `s` being the
        node and `was` its paging heap before that pass. */
    method Undo(address: nat, ghost c: nat, ghost start: nat, ghost n: nat, ghost blocks: seq<nat>, ghost s: Snap,
        ghost was: State)
      requires Valid() && Located() && c < |nodes| && nodes[c].allowsPaging && nodes[c].paging != null
      requires Passed(s, SnapOf(c), start, n, blocks) && AllLegal(s.range) && start == FirstFit(s.range, n)
      requires was.table == s.range && was.used < WORD && was.free < WORD
      requires nodes[c].paging.View() == MallocStep(was, n) && address == nodes[c].paging.Address(start)
      modifies nodes[c].heap, nodes[c].heap.entries, nodes[c].paging, nodes[c].paging.entries, tables
      ensures Valid() && (old(CountsExact(nodes[c].heap)) ==> CountsExact(nodes[c].heap))
      ensures nodes[c].paging.View() == was
      ensures nodes[c].heap.entries[..] == s.table <==> AllFoundIn(s, start, n)
      ensures forall p: nat :: p < PAGES ==>
        tables.LeafOf(p) == if Page(address) <= p < Page(address) + n then Mapped(old(tables.LeafOf(p)), 0, 0)
          else old(tables.LeafOf(p))
      ensures SlotsKept(old(tables.mem), tables.mem, tables.root)
      ensures forall i: nat :: i < |nodes| && i != c ==>
        && nodes[i].heap.View() == old(nodes[i].heap.View())
        && (nodes[i].paging != null ==> nodes[i].paging.View() == old(nodes[i].paging.View()))
    {
      hide *;
      ghost var u := SnapOf(c);
      NodeViews(c);
      CompletePass(s, u, start, n, blocks, was, nodes[c].paging.View());
      ghost var answers := OwnAnswers(s, u, start, n, blocks);
      FreeVirtual(address, c, start, answers);
    }

    /** Undo, its effect stated against the memory of the page tables before the pass. */
    method UndoSince(address: nat, ghost c: nat, ghost start: nat, ghost n: nat, ghost blocks: seq<nat>, ghost s: Snap,
        ghost data: State, ghost was: State)
      requires Valid() && Located() && c < |nodes| && nodes[c].allowsPaging && nodes[c].paging != null
      requires Passed(s, SnapOf(c), start, n, blocks) && AllLegal(s.range) && start == FirstFit(s.range, n)
      requires Viewed(s, data, was) && nodes[c].paging.View() == MallocStepBy(true, was, n)
      requires address == nodes[c].paging.Address(start) && SlotsKept(s.mem, tables.mem, tables.root)
      requires forall p: nat :: p < PAGES ==>
        tables.LeafOf(p) == RangeLeaf(Leaf(s.mem, tables.root, Path(p)), p, Page(address), nodes[c].heap, blocks)
      modifies nodes[c].heap, nodes[c].heap.entries, nodes[c].paging, nodes[c].paging.entries, tables
      ensures Valid() && (old(CountsExact(nodes[c].heap)) ==> CountsExact(nodes[c].heap))
      ensures nodes[c].paging.View() == was
      ensures nodes[c].heap.entries[..] == s.table <==> AllFoundIn(s, start, n)
      ensures forall p: nat :: p < PAGES ==>
        if Page(address) <= p < Page(address) + n then !tables.LeafOf(p).present
        else tables.LeafOf(p) == Leaf(s.mem, tables.root, Path(p))
      ensures SlotsKept(s.mem, tables.mem, tables.root)
      ensures forall i: nat :: i < |nodes| && i != c ==>
        && nodes[i].heap.View() == old(nodes[i].heap.View())
        && (nodes[i].paging != null ==> nodes[i].paging.View() == old(nodes[i].paging.View()))
    {
      hide *;
      ghost var mid := tables.mem;
      ViewedParts(s, data, was);
      ChosenStep(true, was, n);
      PassedParts(s, SnapOf(c), start, n, blocks);
      RangeLeaves(nodes[c].heap, Page(address), blocks);
      Undo(address, c, start, n, blocks, s, was);
      SlotsKeptTrans(s.mem, mid, tables.mem, tables.root);
    }

    lemma Leaves()
      ensures forall p: nat :: tables.LeafOf(p) == Leaf(tables.mem, tables.root, Path(p))
    {
    }

    /** Freeing what a second pass returned undoes it where the range is a complete chain and
        the index of multiheap.c:255-257 is relative to the range: every page of the range is
        absent again, the range is free again, and so are the blocks behind it exactly when
        slot 0 is populated, before the pass, in the tables that paging_get visits for
        each page of the range. Nothing else has changed. */
    method AllocThenFree(size: nat) returns (address: nat, panicked: bool, ghost c: nat, ghost start: nat)
      requires Valid() && Located() && size <= WORD - BLOCK_SIZE
      modifies repr, tables
      ensures Valid()
      ensures address == 0 <==> old(NoneEligible(BlocksFor(size)))
      ensures address == 0 ==> !panicked && c == |nodes| && tables.mem == old(tables.mem)
      ensures address != 0 ==>
        && c < |nodes| && nodes[c].paging != null
          && start == FirstFit(old(nodes[c].paging.entries[..]), BlocksFor(size))
        && address == nodes[c].paging.Address(start) && (panicked <==> BlocksFor(size) > old(Room(nodes[c].heap)))
      ensures address != 0 && !panicked ==>
        && nodes[c].paging.View() == old(nodes[c].paging.View())
        && (old(CountsExact(nodes[c].heap)) ==> CountsExact(nodes[c].heap))
        && (nodes[c].heap.entries[..] == old(nodes[c].heap.entries[..]) <==>
            AllFoundIn(old(SnapOf(c)), start, BlocksFor(size)))
        && (forall p: nat :: p < PAGES ==>
              if Page(address) <= p < Page(address) + BlocksFor(size) then !tables.LeafOf(p).present
              else tables.LeafOf(p) == old(tables.LeafOf(p)))
      ensures SlotsKept(old(tables.mem), tables.mem, tables.root)
      ensures forall i: nat :: i < |nodes| && i != c ==>
        && nodes[i].heap.View() == old(nodes[i].heap.View())
        && (nodes[i].paging != null ==> nodes[i].paging.View() == old(nodes[i].paging.View()))
    {
      hide *;
      ApartFromThis();
      Leaves();
      ghost var n, blocks := BlocksFor(size), [];
      forall i: nat | i < |nodes| && nodes[i].allowsPaging
        ensures nodes[i].paging != null && AllLegal(SnapOf(i).range)
        ensures Viewed(SnapOf(i), nodes[i].heap.View(), nodes[i].paging.View())
        ensures SnapOf(i).mem == tables.mem && SnapOf(i).root == tables.root
        ensures SnapOf(i).table == nodes[i].heap.entries[..] && SnapOf(i).range == nodes[i].paging.entries[..]
      {
        ReadyNode(i);
        NodeLegal(i);
        NodeViews(i);
      }
      start := 0;
      address, panicked, c, blocks := AllocSecondPass(size, true);
      if address == 0 {
        return;
      }
      start := FirstFit(old(nodes[c].paging.entries[..]), n);
      if panicked {
        return;
      }
      InsideRepr(c);
      UndoSince(address, c, start, n, blocks, old(SnapOf(c)), old(nodes[c].heap.View()), old(nodes[c].paging.View()));
    }

    /** The free of a range as it is written, just after the second pass that made it; `s` and
        `was` are the node and its paging heap before that pass. Where the loop would leave
        the paging heap (`inside` is false) nothing is done. */
    method UndoAsWritten(address: nat, ghost c: nat, ghost start: nat, ghost n: nat, ghost blocks: seq<nat>,
        ghost s: Snap,
        ghost was: State) returns (inside: bool)
      requires Valid() && Located() && c < |nodes| && nodes[c].allowsPaging && nodes[c].paging != null
      requires WrittenPass(s, SnapOf(c), start, n, blocks, was)
      requires nodes[c].paging.View() == MallocStepAsWritten(was, n) && address == nodes[c].paging.Address(start)
      modifies nodes[c].heap, nodes[c].heap.entries, nodes[c].paging, nodes[c].paging.entries, tables
      ensures Valid() && (old(CountsExact(nodes[c].heap)) ==> CountsExact(nodes[c].heap))
      ensures inside <==> start + start + Counting(s.range, start, n) <= |s.range|
      ensures inside ==>
        && (nodes[c].paging.View() == was <==>
            (n == 1 || start + n == |s.range|)
            && NoneFreeButFound(s, start + start, Counting(s.range, start, n), start, n))
        && (nodes[c].heap.entries[..] == s.table <==>
            start == 0 && AllFoundIn(s, 0, n) && NoneFoundIn(s, n, Counting(s.range, start, n) - n))
        && (start == 0 ==> NoneFreeButFound(s, start + start, Counting(s.range, start, n), start, n))
      ensures inside ==> forall p: nat :: p < PAGES ==>
        tables.LeafOf(p) ==
        if (Page(address) <= p < Page(address) + ChainLength(old(nodes[c].paging.entries[..]), start)) ||
           FreeButFoundPage(s, p, start, Counting(s.range, start, n), n)
          then Mapped(old(tables.LeafOf(p)), 0, 0) else old(tables.LeafOf(p))
      ensures SlotsKept(old(tables.mem), tables.mem, tables.root)
      ensures forall i: nat :: i < |nodes| && i != c ==>
        && nodes[i].heap.View() == old(nodes[i].heap.View())
        && (nodes[i].paging != null ==> nodes[i].paging.View() == old(nodes[i].paging.View()))
    {
      hide *;
      SlotsKeptRefl(tables.mem, tables.root);
      ghost var u := SnapOf(c);
      NodeViews(c);
      SnapFirst(c, start + start);
      WrittenParts(s, u, start, n, blocks, was);
      WrittenSound(s, u, start, n, blocks, was);
      var k, count := RangeOf(address, c, start);
      var from := nodes[k].paging.BlockOf(address);
      inside := from + from + count <= nodes[k].paging.entries.Length;
      if inside {
        ghost var behind := WrittenVisits(s, u, start, n, blocks, was);
        WrittenBackIff(s, u, start, n, blocks, was, behind[start..]);
        FreeVirtualAsWritten(address, c, start, behind);
        forall p: nat | p < PAGES
          ensures tables.LeafOf(p) ==
            if (Page(address) <= p < Page(address) + ChainLength(u.range, start)) ||
               FreeButFoundPage(s, p, start, Counting(s.range, start, n), n)
              then Mapped(old(tables.LeafOf(p)), 0, 0) else old(tables.LeafOf(p))
        {
          FreedLeafTwice(old(tables.LeafOf(p)), p, Page(address), ChainLength(u.range, start),
            FirstPage(c) + (start + start), behind[start..]);
        }
      }
    }

    lemma SnapFirst(c: nat, k: nat)
      requires Valid() && c < |nodes| && nodes[c].paging != null
      ensures SnapOf(c).PageAt(k) == FirstPage(c) + k
    {
    }

    lemma SnapSound(c: nat)
      requires Valid() && Located() && c < |nodes| && nodes[c].allowsPaging && nodes[c].paging != null
      ensures SnapOf(c).Sound()
    {
      NodeTabled(c);
      PagingShift(c);
      NodeLegal(c);
      NodeViews(c);
      hide Path, Leaf, Missing, Snap.Tabled, AllLegal;
    }

    /** What the pass and the free need to know of the node before. */
    lemma NodeKnown(i: nat)
      requires Valid() && i < |nodes| && nodes[i].allowsPaging
      ensures nodes[i].paging != null && AllLegal(SnapOf(i).range) && 2 * |SnapOf(i).range| < WORD
      ensures Viewed(SnapOf(i), nodes[i].heap.View(), nodes[i].paging.View())
      ensures SnapOf(i).mem == tables.mem && SnapOf(i).root == tables.root
      ensures SnapOf(i).table == nodes[i].heap.entries[..] && SnapOf(i).range == nodes[i].paging.entries[..]
      ensures |SnapOf(i).range| == nodes[i].paging.entries.Length
      ensures AllRanges() ==> SnapOf(i).RangesOk()
    {
      ReadyNode(i);
      NodeLegal(i);
      NodeViews(i);
      hide Snap.RangesOk, Multi.Valid;
    }

    lemma WrittenNow(c: nat, start: nat, n: nat, blocks: seq<nat>, s: Snap, data: State, was: State)
      requires Valid() && Located() && c < |nodes| && nodes[c].allowsPaging && nodes[c].paging != null
      requires Passed(s, SnapOf(c), start, n, blocks) && s.RangesOk() && AllLegal(s.range) && 2 * |s.range| < WORD
      requires Viewed(s, data, was) && FirstFit(s.range, n) == start
      requires nodes[c].paging.View() == MallocStepBy(false, was, n)
      ensures WrittenPass(s, SnapOf(c), start, n, blocks, was)
      ensures nodes[c].paging.View() == MallocStepAsWritten(was, n)
      ensures start < |s.range|
      ensures SnapOf(c).range == MarkTakenAsWritten(s.range, start, n) == nodes[c].paging.entries[..]
    {
      hide *;
      SnapSound(c);
      NodeViews(c);
      ChosenStep(false, was, n);
      WrittenFrom(s, SnapOf(c), start, n, blocks, data, was);
    }

    /** UndoAsWritten, its effect stated against the memory of the page tables before the
        pass. */
    method UndoWrittenSince(address: nat, ghost c: nat, ghost start: nat, ghost n: nat, ghost blocks: seq<nat>,
        ghost s: Snap, ghost data: State, ghost was: State) returns (inside: bool)
      requires Valid() && Located() && c < |nodes| && nodes[c].allowsPaging && nodes[c].paging != null
      requires Passed(s, SnapOf(c), start, n, blocks) && s.RangesOk() && AllLegal(s.range) && 2 * |s.range| < WORD
      requires Viewed(s, data, was) && FirstFit(s.range, n) == start
      requires nodes[c].paging.View() == MallocStepBy(false, was, n)
      requires address == nodes[c].paging.Address(start) && SlotsKept(s.mem, tables.mem, tables.root)
      requires forall p: nat :: p < PAGES ==>
        tables.LeafOf(p) == RangeLeaf(Leaf(s.mem, tables.root, Path(p)), p, Page(address), nodes[c].heap, blocks)
      modifies nodes[c].heap, nodes[c].heap.entries, nodes[c].paging, nodes[c].paging.entries, tables
      ensures Valid() && (old(CountsExact(nodes[c].heap)) ==> CountsExact(nodes[c].heap))
      ensures start < |s.range| && n > 0
      ensures inside <==> start + start + Counting(s.range, start, n) <= |s.range|
      ensures inside ==>
        && (nodes[c].paging.View() == was <==>
            (n == 1 || start + n == |s.range|)
            && NoneFreeButFound(s, start + start, Counting(s.range, start, n), start, n))
        && (start == 0 ==> NoneFreeButFound(s, start + start, Counting(s.range, start, n), start, n))
        && (nodes[c].heap.entries[..] == s.table <==>
            start == 0 && AllFoundIn(s, 0, n) && NoneFoundIn(s, n, Counting(s.range, start, n) - n))
      ensures start == 0 && AllFoundIn(s, 0, Counting(s.range, start, n)) ==>
        inside
        && (nodes[c].heap.entries[..] == s.table <==> n == 1 || n == |s.range| || s.range[n] == FREE)
      ensures inside ==> forall p: nat :: p < PAGES ==>
        var len := ChainLength(MarkTakenAsWritten(s.range, start, n), start);
        if Page(address) <= p < Page(address) + len then !tables.LeafOf(p).present
        else tables.LeafOf(p) == if FreeButFoundPage(s, p, start, Counting(s.range, start, n), n)
                                 then Mapped(Leaf(s.mem, tables.root, Path(p)), 0, 0)
                                 else Leaf(s.mem, tables.root, Path(p))
      ensures SlotsKept(s.mem, tables.mem, tables.root)
      ensures forall i: nat :: i < |nodes| && i != c ==>
        && nodes[i].heap.View() == old(nodes[i].heap.View())
        && (nodes[i].paging != null ==> nodes[i].paging.View() == old(nodes[i].paging.View()))
    {
      hide *;
      ghost var mid, u := tables.mem, SnapOf(c);
      WrittenNow(c, start, n, blocks, s, data, was);
      WrittenParts(s, u, start, n, blocks, was);
      PassedParts(s, u, start, n, blocks);
      if AllFoundIn(s, 0, Counting(s.range, start, n)) { FoundOrNot(s, n, Counting(s.range, start, n)); }
      RangeLeaves(nodes[c].heap, Page(address), blocks);
      inside := UndoAsWritten(address, c, start, n, blocks, s, was);
      SlotsKeptTrans(s.mem, mid, tables.mem, tables.root);
    }

    /** A second pass as the code makes it, and the free of its range as the code does it,
        from any state in which the pages stand as they should. The paging heap with its
        counters is as before exactly when the range has one block or ends with the heap
        and no free page that is visited answers with its own address; the data heap exactly
        when the range starts at block 0, all its pages are found by paging_get and none of
        those counted behind it. Where all are found from block 0 on that is when the range
        has one block, or ends with the heap, or is followed by a free block. Where the loop
        would leave the paging heap the free is not run. */
    method AllocThenFreeAsWritten(size: nat)
      returns (address: nat, panicked: bool, inside: bool, ghost c: nat, ghost start: nat, ghost count: nat)
      requires Valid() && Located() && AllRanges() && size <= WORD - BLOCK_SIZE
      modifies repr, tables
      ensures Valid()
      ensures address == 0 <==> old(NoneEligible(BlocksFor(size)))
      ensures address == 0 ==> !panicked && c == |nodes| && tables.mem == old(tables.mem)
      ensures address != 0 ==>
        && c < |nodes| && nodes[c].paging != null
          && start == FirstFit(old(nodes[c].paging.entries[..]), BlocksFor(size))
        && address == nodes[c].paging.Address(start) && (panicked <==> BlocksFor(size) > old(Room(nodes[c].heap)))
        && count == Counting(old(nodes[c].paging.entries[..]), start, BlocksFor(size))
      ensures address != 0 && !panicked ==>
        && (inside <==> start + start + count <= nodes[c].paging.entries.Length)
        && (old(CountsExact(nodes[c].heap)) ==> CountsExact(nodes[c].heap))
      ensures address != 0 && !panicked && inside ==>
        && (nodes[c].paging.View() == old(nodes[c].paging.View()) <==>
            (BlocksFor(size) == 1 || start + BlocksFor(size) == nodes[c].paging.entries.Length)
            && NoneFreeButFound(old(SnapOf(c)), start + start, count, start, BlocksFor(size)))
        && (start == 0 ==> NoneFreeButFound(old(SnapOf(c)), start + start, count, start, BlocksFor(size)))
      ensures address != 0 && !panicked && inside ==>
        && (nodes[c].heap.entries[..] == old(nodes[c].heap.entries[..]) <==>
            start == 0 && AllFoundIn(old(SnapOf(c)), 0, BlocksFor(size))
            && NoneFoundIn(old(SnapOf(c)), BlocksFor(size), count - BlocksFor(size)))
      ensures address != 0 && !panicked && start == 0 && AllFoundIn(old(SnapOf(c)), 0, count) ==>
        inside
        && (nodes[c].heap.entries[..] == old(nodes[c].heap.entries[..]) <==>
            BlocksFor(size) == 1 || BlocksFor(size) == nodes[c].paging.entries.Length
            || old(nodes[c].paging.entries[..])[BlocksFor(size)] == FREE)
      ensures address != 0 && !panicked && inside ==> forall p: nat :: p < PAGES ==>
        var len := ChainLength(MarkTakenAsWritten(old(nodes[c].paging.entries[..]), start, BlocksFor(size)), start);
        if Page(address) <= p < Page(address) + len then !tables.LeafOf(p).present
        else tables.LeafOf(p) == if FreeButFoundPage(old(SnapOf(c)), p, start, count, BlocksFor(size))
                                 then Mapped(old(tables.LeafOf(p)), 0, 0) else old(tables.LeafOf(p))
      ensures SlotsKept(old(tables.mem), tables.mem, tables.root)
      ensures forall i: nat :: i < |nodes| && i != c ==>
        && nodes[i].heap.View() == old(nodes[i].heap.View())
        && (nodes[i].paging != null ==> nodes[i].paging.View() == old(nodes[i].paging.View()))
    {
      hide *;
      ApartFromThis();
      Leaves();
      ghost var n, blocks := BlocksFor(size), [];
      forall i: nat | i < |nodes| && nodes[i].allowsPaging
        ensures nodes[i].paging != null && AllLegal(SnapOf(i).range) && 2 * |SnapOf(i).range| < WORD
        ensures Viewed(SnapOf(i), nodes[i].heap.View(), nodes[i].paging.View())
        ensures SnapOf(i).mem == tables.mem && SnapOf(i).root == tables.root
        ensures SnapOf(i).table == nodes[i].heap.entries[..] && SnapOf(i).range == nodes[i].paging.entries[..]
        ensures SnapOf(i).RangesOk()
      {
        NodeKnown(i);
      }
      start, count, inside := 0, 0, false;
      address, panicked, c, blocks := AllocSecondPass(size, false);
      if address == 0 {
        return;
      }
      start := FirstFit(old(nodes[c].paging.entries[..]), n);
      count := Counting(old(nodes[c].paging.entries[..]), start, n);
      if panicked {
        return;
      }
      InsideRepr(c);
      inside := UndoWrittenSince(address, c, start, n, blocks, old(SnapOf(c)), old(nodes[c].heap.View()),
          old(nodes[c].paging.View()));
    }

    /** The first second pass after `multiheap_ready`. */
    method FirstSecondPass(size: nat, complete: bool)
      returns (address: nat, panicked: bool, ghost c: nat, ghost blocks: seq<nat>)
      requires Valid() && size <= WORD - BLOCK_SIZE && forall i :: 0 <= i < |nodes| ==> Prepared(nodes[i])
      modifies tables, repr
      ensures Valid() && nodes == old(nodes) && maxEnd == old(maxEnd) && (old(Located()) ==> Located())
      ensures address == 0 <==> forall i: nat :: i < |nodes| ==> !old(Promises(nodes[i], BlocksFor(size)))
      ensures address != 0 ==>
        && c < |nodes| && old(Promises(nodes[c], BlocksFor(size)))
        && (forall i: nat :: i < c ==> !old(Promises(nodes[i], BlocksFor(size))))
        && (panicked <==> BlocksFor(size) > old(Room(nodes[c].heap)))
      ensures address != 0 && !panicked ==>
        && nodes[c].paging != null && address == maxEnd + nodes[c].heap.saddr == nodes[c].paging.Address(0)
        && Backed(old(nodes[c].heap.entries[..]), nodes[c].heap.entries[..], blocks, BlocksFor(size))
        && Standing(SnapOf(c), 0, blocks)
        && (forall p: nat :: Page(address) <= p < Page(address) + |blocks| ==> Accessible(tables.LeafOf(p)))
      ensures address != 0 && !panicked && old(AllRanges()) && Located() ==> AllRanges()
      ensures forall i: nat :: i < |nodes| && i != c ==> nodes[i].heap.View() == old(nodes[i].heap.View())
    {
      hide *;
      ApartFromThis();
      ghost var n := BlocksFor(size);
      AllFresh(n);
      address, panicked, c, blocks := AllocSecondPass(size, complete);
      if address != 0 && !panicked {
        PassedStands(old(SnapOf(c)), SnapOf(c), 0, n, blocks);
        FirstAddress(c);
        RangeInside(c, 0, blocks);
        RangeAccess(nodes[c].heap, Page(address), blocks);
      }
    }

    lemma FirstAddress(c: nat)
      requires Valid() && c < |nodes| && nodes[c].allowsPaging && nodes[c].paging != null
      ensures nodes[c].paging.Address(0) == maxEnd + nodes[c].heap.saddr
    {
      PagingShift(c);
    }

    lemma RangeInside(c: nat, start: nat, blocks: seq<nat>)
      requires Valid() && c < |nodes| && nodes[c].allowsPaging && nodes[c].paging != null
      requires Standing(SnapOf(c), start, blocks)
      ensures |blocks| > 0 ==> Page(nodes[c].paging.Address(start)) + |blocks| <= PAGES
    {
      NodeViews(c);
      if |blocks| > 0 {
        OwnPage(c, start);
        OwnPage(c, start + |blocks| - 1);
      }
    }

    /** From heaps that have just been added to a backed range. Once `multiheap_ready` has
        run, the first second pass of `n` blocks finds a range exactly when some heap that
        allows paging has `n` blocks and counts that many free, however scattered they
        are. The range then starts at the first page of that heap's paging heap, and page
        by page stands, present and writable, for a different block that was free. With
        gaps between the heaps every page of the paging heaps then stands for what it
        should. */
    method ReadyThenAlloc(size: nat, complete: bool)
      returns (address: nat, panicked: bool, ghost c: nat, ghost blocks: seq<nat>)
      requires Added() && size <= WORD - BLOCK_SIZE
      requires forall i :: 0 <= i < |nodes| ==> 2 * nodes[i].heap.End() <= PAGES * PAGE_SIZE
      requires 3 * PagingBlocks(nodes) <= |tables.pool|
      modifies this, tables, repr
      ensures Valid() && |nodes| == |old(nodes)| && (Gaps(old(nodes)) ==> Located())
      ensures forall i :: 0 <= i < |nodes| ==>
        nodes[i].heap == old(nodes)[i].heap && nodes[i].allowsPaging == old(nodes)[i].allowsPaging
      ensures address == 0 <==> forall i: nat :: i < |nodes| ==> !old(Promises(nodes[i], BlocksFor(size)))
      ensures address != 0 ==>
        && c < |nodes| && old(Promises(nodes[c], BlocksFor(size)))
        && (forall i: nat :: i < c ==> !old(Promises(nodes[i], BlocksFor(size))))
        && (panicked <==> BlocksFor(size) > old(Room(nodes[c].heap)))
      ensures address != 0 && !panicked ==>
        && nodes[c].paging != null && address == maxEnd + nodes[c].heap.saddr == nodes[c].paging.Address(0)
        && Backed(old(nodes[c].heap.entries[..]), nodes[c].heap.entries[..], blocks, BlocksFor(size))
        && Standing(SnapOf(c), 0, blocks) && (Gaps(old(nodes)) ==> AllRanges())
        && (forall p: nat :: Page(address) <= p < Page(address) + |blocks| ==> Accessible(tables.LeafOf(p)))
      ensures forall i: nat :: i < |nodes| && i != c ==> nodes[i].heap.View() == old(nodes[i].heap.View())
    {
      hide *;
      Ready();
      forall i: nat | i < |nodes|
        ensures Promises(nodes[i], BlocksFor(size)) == old(Promises(nodes[i], BlocksFor(size)))
        ensures nodes[i].heap.entries[..] == old(nodes[i].heap.entries[..])
        ensures Room(nodes[i].heap) == old(Room(nodes[i].heap))
      {
        SamePromises(nodes[i], old(nodes[i]));
      }
      address, panicked, c, blocks := FirstSecondPass(size, complete);
    }

    lemma ApartFromThis()
      requires Valid()
      ensures this !in repr && tables as object != this && Separate()
    {
    }

    lemma InsideRepr(c: nat)
      requires Valid() && c < |nodes|
      ensures Inside(nodes[c].heap, repr) && Inside(nodes[c].paging, repr)
    {
    }

  }

  /** heap_is_address_within_heap. */
  predicate Within(h: Heap, address: nat) { h.saddr <= address <= h.End() }

  lemma InPoolWithin(h: Heap, b: nat)
    requires b < h.entries.Length
    ensures h.saddr <= h.Address(b) < h.End() && (h.Address(b) == h.saddr <==> b == 0)
    ensures h.saddr <= h.End()
  {
  }

  lemma InPoolAt(h: Heap, b: nat)
    requires b < h.entries.Length
    ensures h.InPool(h.Address(b)) && h.BlockOf(h.Address(b)) == b
    ensures h.saddr <= h.Address(b) < h.End()
  {
  }

  lemma AddressShift(h: Heap, b: nat, i: nat)
    ensures h.Address(b) + i * BLOCK_SIZE == h.Address(b + i)
  {
  }

  lemma CountedSame(st: State, x: int)
    ensures Counted(st, x).table == st.table
  {
  }

  lemma RangeLeaves(heap: Heap, first: nat, blocks: seq<nat>)
    ensures forall was: Entry, p: nat :: !(first <= p < first + |blocks|) ==>
      RangeLeaf(was, p, first, heap, blocks) == was
    ensures forall was: Entry :: !Mapped(was, 0, 0).present
  {
  }

  lemma RangeAccess(heap: Heap, first: nat, blocks: seq<nat>)
    ensures forall was: Entry, p: nat :: first <= p < first + |blocks| ==>
      Accessible(RangeLeaf(was, p, first, heap, blocks))
  {
  }

  /** Two heaps that can take a range of `n` blocks. */
  ghost predicate CanTake(data: State, range: State, n: nat) {
    n <= data.free && FirstFit(range.table, n) >= 0
  }

  lemma FreeWhole(t: seq<BlockEntry>)
    requires t == seq(|t|, _ => FREE)
    ensures WellFormed(t)
  {
    FreeFacts();
    forall i | 0 <= i < |t|
      ensures EntryOk(t, i)
    {
    }
  }

  lemma MarkedBy(complete: bool, st: State, n: nat)
    requires FirstFit(st.table, n) >= 0
    ensures var s, r := FirstFit(st.table, n), MallocStepBy(complete, st, n).table;
            && FreeRun(st.table, s, n) && s + n <= |st.table|
            && r == (if complete then MarkTaken(st.table, s, n) else MarkTakenAsWritten(st.table, s, n))
            && (complete || n == 1 ==> r == MarkTaken(st.table, s, n))
  {
    OneBlockEither(complete, st);
  }

  lemma SameView(h: Heap, was: State)
    requires h.View() == was
    ensures h.entries[..] == was.table
  {
  }

  lemma NextPage(h: Heap, b: nat)
    ensures h.Address(b) + BLOCK_SIZE == h.Address(b + 1)
  {
  }

  /** The leaf of page `p` after the pages from `first` on have been mapped to `blocks`. */
  function RangeLeaf(was: Entry, p: nat, first: nat, heap: Heap, blocks: seq<nat>): Entry {
    if first <= p < first + |blocks| then Mapped(was, heap.Address(blocks[p - first]), IS_WRITEABLE | IS_PRESENT)
      else was
  }

  lemma LeafFrame(was: Entry, p: nat, first: nat, heap: Heap, blocks: seq<nat>)
    requires first <= p < first + |blocks|
    ensures RangeLeaf(was, p, first, heap, blocks).frame == (heap.Address(blocks[p - first]) / PAGE_SIZE) % FRAMES
  {
  }

  lemma SamePromises(n: Node, m: Node)
    requires n.heap == m.heap && n.allowsPaging == m.allowsPaging
    ensures forall k :: Multi.Promises(n, k) == Multi.Promises(m, k)
  {
  }

  lemma FitsEmpty(t: seq<BlockEntry>, n: nat)
    requires t == seq(|t|, _ => FREE)
    ensures FirstFit(t, n) >= 0 <==> 0 < n <= |t|
    ensures 0 < n <= |t| ==> FirstFit(t, n) == 0
  {
    if 0 < n <= |t| {
      FirstFitExists(t, 0, n);
    }
  }

  /** The rights that the second pass gives a page (multiheap.c:374). */
  predicate Accessible(e: Entry) { e.present && e.write && !e.user }

  lemma RangeNone(heap: Heap)
    ensures forall was, p, first :: RangeLeaf(was, p, first, heap, []) == was
  {
  }

  lemma RangeMore(heap: Heap, first: nat, blocks: seq<nat>, b: nat)
    ensures forall was, p ::
      RangeLeaf(was, p, first, heap, blocks + [b]) ==
      if p == first + |blocks|
        then Mapped(RangeLeaf(was, p, first, heap, blocks), heap.Address(b), IS_WRITEABLE | IS_PRESENT)
      else RangeLeaf(was, p, first, heap, blocks)
  {
  }

  lemma WholeFrame(h: Heap, b: nat)
    requires h.Sane() && h.Address(b) < FRAMES * PAGE_SIZE
    ensures (h.Address(b) / PAGE_SIZE) % FRAMES * PAGE_SIZE == h.Address(b)
  {
  }

  lemma HeapView(h: Heap)
    ensures h.View() == State(h.entries[..], h.data[..], h.usedBlocks, h.freeBlocks)
  {
  }

  lemma OneBlockRoom(h: Heap)
    requires h.Sane()
    ensures 0 < h.saddr && (FirstFit(h.View().table, 1) >= 0 <==> Room(h) > 0)
    ensures CountsExact(h) && Room(h) > 0 ==> Wrap(h.freeBlocks - 1) == h.freeBlocks - 1
  {
    OneBlockFits(h.entries[..]);
  }
}
