/** The paging descriptor (memory/paging/paging.c): mapping, range mapping and lookup. */
module Paging {
  import opened Common
  import opened PageTable

  const IS_PRESENT: bv8 := 0x01
  const IS_WRITEABLE: bv8 := 0x02
  const ACCESS_FROM_ALL: bv8 := 0x04

  /** The leaf that paging_map writes over `was`: the other bits of the entry stay. */
  function Mapped(was: Entry, phys: nat, flags: bv8): Entry {
    was.(frame := (phys / PAGE_SIZE) % FRAMES, present := flags & IS_PRESENT != 0,
          write := flags & IS_WRITEABLE != 0, user := flags & ACCESS_FROM_ALL != 0)
  }

  predicate PoolOk(pool: seq<nat>, owner: map<nat, seq<nat>>) {
    && (forall i :: 0 <= i < |pool| ==> pool[i] !in owner && pool[i] % PAGE_SIZE == 0 && pool[i] / PAGE_SIZE < FRAMES)
    && (forall i, j :: 0 <= i < j < |pool| ==> pool[i] != pool[j])
  }

  class PageTables {
    const root: nat
    var mem: Memory
    /** The zeroed page-aligned blocks that kzalloc will hand out next. */
    var pool: seq<nat>
    /** The indices from the root to each table. */
    ghost var owner: map<nat, seq<nat>>

    ghost predicate Valid()
      reads this
    {
      && Tree(mem, owner)
      && root in owner && owner[root] == []
      && PoolOk(pool, owner)
    }

    /** The processor's translation of a page. */
    function Translate(page: nat): Translation
      reads this
    {
      Walk(mem, root, Path(page), true, true, false)
    }

    function LeafOf(page: nat): Entry
      reads this
    {
      Leaf(mem, root, Path(page))
    }

    function MissingOf(page: nat): nat
      reads this
    {
      Missing(mem, root, Path(page))
    }

    /** Every table on the way to `count` pages from `first` exists. */
    ghost predicate Premapped(first: nat, count: nat)
      reads this
    {
      forall p: nat :: first <= p < first + count ==> MissingOf(p) == 0
    }

    constructor (root: nat, pool: seq<nat>)
      requires PoolOk(pool, map[root := []])
      ensures Valid() && this.root == root && this.pool == pool
      ensures forall p: nat :: LeafOf(p) == NULL_ENTRY
    {
      this.root, this.pool := root, pool;
      mem := map[root := EmptyTable()];
      owner := map[root := []];
    }

    method Kzalloc() returns (table: nat)
      requires |pool| > 0
      modifies this`mem, this`pool
      ensures table == old(pool)[0] && pool == old(pool)[1..]
      ensures mem == old(mem)[table := EmptyTable()]
    {
      table := pool[0];
      pool := pool[1..];
      mem := mem[table := EmptyTable()];
    }

    /** The table below entry `k` of the table at `a`, allocated when the entry is null. */
    method Descend(a: nat, k: nat, ghost path: seq<nat>) returns (child: nat)
      requires Valid() && a in owner && Indices(path) && 1 < |path| && |path| + |owner[a]| == 4 && path[0] == k
      requires Missing(mem, a, path) <= |pool|
      modifies this
      ensures Valid() && child in owner && owner[child] == old(owner)[a] + [k]
      ensures a in mem && k < |mem[a]| && mem[a][k] != NULL_ENTRY && child == Target(mem[a][k])
      ensures |pool| - Missing(mem, child, path[1..]) == old(|pool| - Missing(mem, a, path))
      ensures IsSuffix(pool, old(pool)) && Grown(old(mem), mem, root)
      ensures Kept(old(mem), mem, old(owner), owner)
      ensures old(Missing(mem, a, path)) == 0 ==> mem == old(mem) && owner == old(owner) && pool == old(pool)
    {
      if mem[a][k] == NULL_ENTRY {
        forall p: nat
          ensures var mem' := Set(mem[pool[0] := EmptyTable()], a, k, Inner(pool[0]));
                  Leaf(mem', root, Path(p)) == Leaf(mem, root, Path(p))
                    && Missing(mem', root, Path(p)) <= Missing(mem, root, Path(p))
        {
          GrowLeaf(mem, owner, a, k, pool[0], root, Path(p));
        }
        GrowTree(mem, owner, a, k, pool[0]);
        var table := Kzalloc();
        mem := mem[a := mem[a][k := Inner(table)]];
        owner := owner[table := owner[a] + [k]];
        assert pool == old(pool)[1..];
        assert PoolOk(pool, owner);
        assert mem[table] == EmptyTable() && table != a;
        assert path[1..][0] < ENTRIES;
      } else {
        assert pool == old(pool)[0..];
      }
      ChildOwned(mem, owner, a, path);
      child := Target(mem[a][k]);
    }

    /** From the table at `a` down to the page table; paging.c:165-210 has the three
        levels written out one after the other. */
    method PageTableBelow(a: nat, path: seq<nat>) returns (pt: nat)
      requires Valid() && a in owner && Indices(path) && 1 <= |path| && |path| + |owner[a]| == 4
      requires Missing(mem, a, path) <= |pool|
      modifies this
      ensures Valid() && pt in owner && owner[pt] + path[|path| - 1..] == old(owner)[a] + path
      ensures Reach(mem, a, path) == pt && Missing(mem, a, path) == 0
      ensures |pool| == |old(pool)| - old(Missing(mem, a, path))
      ensures IsSuffix(pool, old(pool)) && Grown(old(mem), mem, root)
      ensures Kept(old(mem), mem, old(owner), owner)
      ensures old(Missing(mem, a, path)) == 0 ==> mem == old(mem) && owner == old(owner) && pool == old(pool)
      decreases |path|
    {
      hide Path, Leaf, Missing, Reach, Tree, Grown, Kept, Target, Indices, IsSuffix;
      if |path| == 1 {
        KeptRefl(mem, owner, root);
        SuffixRefl(pool);
        Unfold(mem, owner, a, path);
        return a;
      }
      var child := Descend(a, path[0], path);
      ghost var mem1, owner1, pool1 := mem, owner, pool;
      KeptAt(old(mem), mem1, old(owner), owner1, a, path[0]);
      ChildOwned(mem, owner, a, path);
      pt := PageTableBelow(child, path[1..]);
      KeptAt(mem1, mem, owner1, owner, a, path[0]);
      Unfold(mem, owner, a, path);
      Unfold(mem1, owner1, a, path);
      GrownTrans(old(mem), mem1, mem, root);
      KeptTrans(old(mem), mem1, mem, old(owner), owner1, owner);
      SuffixTrans(pool, pool1, old(pool));
      assert path[1..][|path| - 2..] == path[|path| - 1..];
    }

    method PageTableFor(page: nat) returns (pt: nat)
      requires Valid() && page < PAGES && MissingOf(page) <= |pool|
      modifies this
      ensures Valid() && pt in owner && owner[pt] + [Path(page)[3]] == Path(page)
      ensures Reach(mem, root, Path(page)) == pt
      ensures MissingOf(page) == 0 && |pool| == |old(pool)| - old(MissingOf(page))
      ensures IsSuffix(pool, old(pool)) && Grown(old(mem), mem, root)
      ensures old(MissingOf(page)) == 0 ==> mem == old(mem) && owner == old(owner) && pool == old(pool)
    {
      hide Path, Leaf, Missing, Reach, Tree, Grown, Kept;
      pt := PageTableBelow(root, Path(page));
      assert Path(page)[3..] == [Path(page)[3]];
    }

    /** paging_map: the processor then translates the page to the new frame with exactly
        the given rights (execute-disable stays as it was), and every other 48-bit page
        as before. Tables are taken from the pool only where one was missing. */
    method Map(va: nat, phys: nat, flags: bv8)
      requires Valid() && MissingOf(Page(va)) <= |pool|
      modifies this
      ensures Valid()
      ensures LeafOf(Page(va)) == Mapped(old(LeafOf(Page(va))), phys, flags)
      ensures forall p: nat :: p < PAGES && p != Page(va) ==> LeafOf(p) == old(LeafOf(p))
      ensures Translate(Page(va)) == Translated(Mapped(old(LeafOf(Page(va))), phys, flags))
      ensures forall p: nat :: p < PAGES && p != Page(va) ==> Translate(p) == old(Translate(p))
      ensures forall p: nat :: p < PAGES ==> MissingOf(p) <= old(MissingOf(p))
      ensures MissingOf(Page(va)) == 0 && |pool| == |old(pool)| - old(MissingOf(Page(va)))
      ensures IsSuffix(pool, old(pool))
      ensures old(MissingOf(Page(va))) == 0 ==> pool == old(pool) && mem.Keys == old(mem.Keys)
      ensures old(MissingOf(Page(va))) == 0 ==> SlotsKept(old(mem), mem, root)
    {
      hide Path, Leaf, Missing, Tree, Walk, Reach, Mapped, SlotsKept, IsSuffix, PageTables.Valid;
      var page := Page(va);
      TranslateIsLeaf();
      var pt := PageTableFor(page);
      SetLeaf(page, pt, phys, flags);
      TranslateIsLeaf();
    }

    /** paging.c:212-222: the last-level entry. */
    method SetLeaf(page: nat, pt: nat, phys: nat, flags: bv8)
      requires Valid() && page < PAGES && pt in owner && owner[pt] + [Path(page)[3]] == Path(page)
      requires Reach(mem, root, Path(page)) == pt && MissingOf(page) == 0
      modifies this`mem
      ensures Valid() && LeafOf(page) == Mapped(old(LeafOf(page)), phys, flags)
      ensures forall p: nat :: p < PAGES ==>
        && (p != page ==> LeafOf(p) == old(LeafOf(p))) && MissingOf(p) == old(MissingOf(p))
      ensures mem.Keys == old(mem.Keys) && SlotsKept(old(mem), mem, root)
    {
      var k := page % 512;
      var leaf := mem[pt][k];
      leaf := leaf.(frame := (phys / PAGE_SIZE) % FRAMES);
      leaf := leaf.(present := flags & IS_PRESENT != 0);
      leaf := leaf.(write := flags & IS_WRITEABLE != 0);
      leaf := leaf.(user := flags & ACCESS_FROM_ALL != 0);
      SetLeafIn(mem, owner, root, page, pt, leaf);
      SetLeafTree(mem, owner, pt, k, leaf);
      SetLeafSlots(mem, owner, root, pt, k, leaf);
      hide Path, Leaf, Missing, Tree, SlotsKept;
      mem := mem[pt := mem[pt][k := leaf]];
    }

    /** The processor's translation of every page is its leaf's. */
    lemma TranslateIsLeaf()
      requires Valid()
      ensures forall p: nat :: p < PAGES ==> Translate(p) == Translated(LeafOf(p))
    {
      forall p: nat | p < PAGES
        ensures Translate(p) == Translated(LeafOf(p))
      {
        WalkIsLeaf(mem, owner, root, Path(p));
      }
    }

    /** paging_map_range. */
    method MapRange(virt: nat, phys: nat, count: nat, flags: bv8)
      requires Valid() && Page(virt) + count <= PAGES
      requires 3 * count <= |pool| || Premapped(Page(virt), count)
      modifies this
      ensures Valid() && IsSuffix(pool, old(pool)) && |old(pool)| - 3 * count <= |pool|
      ensures forall p: nat :: p < PAGES ==>
        LeafOf(p) == if Page(virt) <= p < Page(virt) + count
                     then Mapped(old(LeafOf(p)), phys + (p - Page(virt)) * PAGE_SIZE, flags) else old(LeafOf(p))
      ensures forall p: nat :: p < PAGES ==> MissingOf(p) <= old(MissingOf(p))
      ensures Premapped(Page(virt), count)
    {
      hide Path, Leaf, Missing, Tree, Walk, PoolOk, IsSuffix, Page;
      ghost var first := Page(virt);
      var v, f := virt, phys;
      SuffixRefl(pool);
      for i := 0 to count
        invariant Valid() && IsSuffix(pool, old(pool)) && |old(pool)| - 3 * i <= |pool|
        invariant v == virt + i * PAGE_SIZE && f == phys + i * PAGE_SIZE
        invariant 3 * (count - i) <= |pool| || Premapped(first, count)
        invariant forall p: nat :: p < PAGES ==>
          LeafOf(p) == if first <= p < first + i then Mapped(old(LeafOf(p)), phys + (p - first) * PAGE_SIZE, flags)
            else old(LeafOf(p))
        invariant forall p: nat :: p < PAGES ==> MissingOf(p) <= old(MissingOf(p))
        invariant Premapped(first, i)
      {
        PageShift(virt, i);
        MissingBound(mem, root, Path(first + i));
        ghost var pool0 := pool;
        Map(v, f, flags);
        SuffixTrans(pool, pool0, old(pool));
        v := v + PAGE_SIZE;
        f := f + PAGE_SIZE;
      }
    }

    /** paging_map_to. */
    method MapTo(virt: nat, phys: nat, physEnd: nat, flags: bv8) returns (res: int)
      requires Valid()
      requires physEnd >= phys ==> Page(virt) + (physEnd - phys) / PAGE_SIZE <= PAGES
      requires physEnd >= phys ==> 3 * ((physEnd - phys) / PAGE_SIZE) <= |pool|
      modifies this
      ensures Valid() && IsSuffix(pool, old(pool))
      ensures res == 0 ==> |old(pool)| - 3 * ((physEnd - phys) / PAGE_SIZE) <= |pool|
      ensures res == 0 ==> forall p: nat :: p < PAGES ==> MissingOf(p) <= old(MissingOf(p))
      ensures res == 0 <==>
              virt % PAGE_SIZE == 0 && phys % PAGE_SIZE == 0 && physEnd % PAGE_SIZE == 0 && phys <= physEnd
      ensures res != 0 ==> res == -EINVARG && mem == old(mem)
      ensures res == 0 ==> forall p: nat :: p < PAGES ==>
        LeafOf(p) == if Page(virt) <= p < Page(virt) + (physEnd - phys) / PAGE_SIZE
                     then Mapped(old(LeafOf(p)), phys + (p - Page(virt)) * PAGE_SIZE, flags) else old(LeafOf(p))
      ensures res == 0 ==> Premapped(Page(virt), (physEnd - phys) / PAGE_SIZE)
    {
      SuffixRefl(pool);
      if virt % PAGE_SIZE != 0 {
        return -EINVARG;
      }
      if phys % PAGE_SIZE != 0 {
        return -EINVARG;
      }
      if physEnd % PAGE_SIZE != 0 {
        return -EINVARG;
      }
      if physEnd < phys {
        return -EINVARG;
      }
      MapRange(virt, phys, (physEnd - phys) / PAGE_SIZE, flags);
      res := 0;
    }

    /** paging_get, which also gives up when slot 0 of the PDPT or of the page directory
        on the way is null (paging.c:332, 347, 361). */
    function Get(va: nat): Option<Entry>
      reads this
    {
      Lookup(mem, root, Path(Page(va)))
    }

    /** paging_get_physical_address, 0 standing for NULL. */
    function GetPhysicalAddress(va: nat): nat
      reads this
    {
      match Get(va)
      case None => 0
      case Some(e) => Target(e) + va % PAGE_SIZE
    }
  }

  /** A byte of a range that paging_map_to has just mapped: the lookup gives `phys` plus
      the same displacement when slot 0 of the visited tables is populated, else NULL. */
  lemma PhysicalIff(pt: PageTables, virt: nat, phys: nat, d: nat, was: Entry, flags: bv8)
    requires pt.Valid() && virt % PAGE_SIZE == 0 && phys % PAGE_SIZE == 0
    requires Page(virt) + d / PAGE_SIZE < PAGES && phys + d < FRAMES * PAGE_SIZE
    requires pt.LeafOf(Page(virt) + d / PAGE_SIZE) == Mapped(was, phys + d / PAGE_SIZE * PAGE_SIZE, flags)
    requires pt.MissingOf(Page(virt) + d / PAGE_SIZE) == 0
    ensures pt.GetPhysicalAddress(virt + d) ==
            if SlotZero(pt.mem, pt.root, Path(Page(virt) + d / PAGE_SIZE)) then phys + d else 0
  {
    hide Path, Tree, Leaf, Missing, Lookup, SlotZero;
    var j := d / PAGE_SIZE;
    PageShift(virt, j);
    assert (virt + d) / PAGE_SIZE == (virt + j * PAGE_SIZE) / PAGE_SIZE;
    assert Page(virt + d) == Page(virt) + j;
    assert (virt + d) % PAGE_SIZE == d % PAGE_SIZE;
    LookupLeaf(pt.mem, pt.owner, pt.root, Path(Page(virt) + j));
    assert (phys + j * PAGE_SIZE) / PAGE_SIZE < FRAMES;
  }

  // A mapped page that paging_get does not find: slot 1 of the PDPT is used, slot 0 is not.

  function OneEntry(k: nat, e: Entry): (t: Table)
    ensures |t| == ENTRIES && forall i :: 0 <= i < ENTRIES ==> t[i] == if i == k then e else NULL_ENTRY
  {
    seq(ENTRIES, i => if i == k then e else NULL_ENTRY)
  }

  function SlotExample(): Memory {
    map[0x1000 := OneEntry(0, Inner(0x2000)), 0x2000 := OneEntry(1, Inner(0x3000)),
        0x3000 := OneEntry(0, Inner(0x4000)), 0x4000 := OneEntry(0, Entry(true, true, false, false, 0, 7))]
  }

  function SlotOwner(): map<nat, seq<nat>> {
    map[0x1000 := [], 0x2000 := [0], 0x3000 := [0, 1], 0x4000 := [0, 1, 0]]
  }

  lemma InnerTarget(table: nat)
    requires table % PAGE_SIZE == 0 && table / PAGE_SIZE < FRAMES
    ensures Target(Inner(table)) == table && Permissive(Inner(table))
  {
  }

  lemma SlotExampleTree()
    ensures Tree(SlotExample(), SlotOwner())
  {
    var mem, owner := SlotExample(), SlotOwner();
    InnerTarget(0x2000);
    InnerTarget(0x3000);
    InnerTarget(0x4000);
    hide Inner, OneEntry, Target, Permissive;
    forall a, k | a in owner && |owner[a]| < 3 && 0 <= k < ENTRIES && mem[a][k] != NULL_ENTRY
      ensures Permissive(mem[a][k]) && Target(mem[a][k]) in owner && owner[Target(mem[a][k])] == owner[a] + [k]
    {
      if a == 0x1000 {
        assert mem[a] == OneEntry(0, Inner(0x2000));
      } else if a == 0x2000 {
        assert mem[a] == OneEntry(1, Inner(0x3000));
      } else {
        assert mem[a] == OneEntry(0, Inner(0x4000));
      }
    }
  }

  /** The processor translates the page at 1 GiB, paging_get returns NULL for it. */
  lemma GetMissesMappedPage()
    ensures Tree(SlotExample(), SlotOwner()) && SlotOwner()[0x1000] == []
    ensures Translated(Leaf(SlotExample(), 0x1000, Path(Page(0x4000_0000)))) == Maps(7, true, false, false)
    ensures Lookup(SlotExample(), 0x1000, Path(Page(0x4000_0000))) == None
  {
    hide Path, Page, Tree;
    SlotExampleTree();
    var mem := SlotExample();
    ExamplePath();
    InnerTarget(0x2000);
    InnerTarget(0x3000);
    InnerTarget(0x4000);
    hide Inner, OneEntry, Target;
    assert Leaf(mem, 0x4000, [0]) == Entry(true, true, false, false, 0, 7);
    assert [0, 0][1..] == [0];
    assert Leaf(mem, 0x3000, [0, 0]) == Leaf(mem, 0x4000, [0]);
    assert [1, 0, 0][1..] == [0, 0];
    assert Leaf(mem, 0x2000, [1, 0, 0]) == Leaf(mem, 0x3000, [0, 0]);
    assert [0, 1, 0, 0][1..] == [1, 0, 0];
    assert Leaf(mem, 0x1000, [0, 1, 0, 0]) == Leaf(mem, 0x2000, [1, 0, 0]);
  }

  lemma ExamplePath()
    ensures Path(Page(0x4000_0000)) == [0, 1, 0, 0]
  {
  }

  function EntryAt(mem: Memory, a: nat, k: nat): Entry {
    if a in mem && k < |mem[a]| then mem[a][k] else NULL_ENTRY
  }

  function Lookup(mem: Memory, root: nat, path: seq<nat>): Option<Entry>
    requires |path| == 4
  {
    var pml4 := EntryAt(mem, root, path[0]);
    if pml4 == NULL_ENTRY then None else
    var pdpt := Target(pml4);
    if EntryAt(mem, pdpt, 0) == NULL_ENTRY then None else
    var pdptEntry := EntryAt(mem, pdpt, path[1]);
    if pdptEntry == NULL_ENTRY then None else
    var pd := Target(pdptEntry);
    if EntryAt(mem, pd, 0) == NULL_ENTRY then None else
    var pdEntry := EntryAt(mem, pd, path[2]);
    if pdEntry == NULL_ENTRY then None else
    Some(EntryAt(mem, Target(pdEntry), path[3]))
  }

  /** Slot 0 of the visited PDPT and page directory is populated. */
  predicate SlotZero(mem: Memory, root: nat, path: seq<nat>)
    requires |path| == 4
  {
    var pdpt := Target(EntryAt(mem, root, path[0]));
    EntryAt(mem, pdpt, 0) != NULL_ENTRY && EntryAt(mem, Target(EntryAt(mem, pdpt, path[1])), 0) != NULL_ENTRY
  }

  /** paging_get returns the leaf that the processor uses or nothing, and for a page whose
      tables exist it returns the leaf exactly when slot 0 of both visited tables is
      populated. */
  lemma LookupIff(mem: Memory, owner: map<nat, seq<nat>>, root: nat, path: seq<nat>)
    requires Tree(mem, owner) && root in owner && owner[root] == [] && |path| == 4 && Indices(path)
    ensures Lookup(mem, root, path).Some? ==>
      && Missing(mem, root, path) == 0
      && Translated(Lookup(mem, root, path).value) == Walk(mem, root, path, true, true, false)
    ensures Missing(mem, root, path) == 0 ==>
      (Lookup(mem, root, path) == Some(Leaf(mem, root, path)) <==> SlotZero(mem, root, path))
  {
    WalkIsLeaf(mem, owner, root, path);
    LookupLeaf(mem, owner, root, path);
  }

  lemma LookupLeaf(mem: Memory, owner: map<nat, seq<nat>>, root: nat, path: seq<nat>)
    requires Tree(mem, owner) && root in owner && owner[root] == [] && |path| == 4 && Indices(path)
    ensures Lookup(mem, root, path) ==
      if Missing(mem, root, path) == 0 && SlotZero(mem, root, path) then Some(Leaf(mem, root, path)) else None
  {
    hide Tree, Target, Leaf, Missing, Indices;
    StepDown(mem, owner, root, path);
    var e4 := mem[root][path[0]];
    if e4 != NULL_ENTRY {
      StepDown(mem, owner, Target(e4), path[1..]);
      var e3 := mem[Target(e4)][path[1]];
      if e3 != NULL_ENTRY {
        StepDown(mem, owner, Target(e3), path[1..][1..]);
        var e2 := mem[Target(e3)][path[2]];
        if e2 != NULL_ENTRY {
          StepDown(mem, owner, Target(e2), path[1..][1..][1..]);
        }
      }
    }
  }

  lemma StepDown(mem: Memory, owner: map<nat, seq<nat>>, a: nat, path: seq<nat>)
    requires Tree(mem, owner) && a in owner && Indices(path) && 1 <= |path| && |path| + |owner[a]| == 4
    ensures a in mem && path[0] < |mem[a]| && 0 < |mem[a]|
    ensures |path| == 1 ==> Leaf(mem, a, path) == mem[a][path[0]] && Missing(mem, a, path) == 0
    ensures |path| > 1 && mem[a][path[0]] == NULL_ENTRY ==> Missing(mem, a, path) > 0
    ensures |path| > 1 && mem[a][path[0]] != NULL_ENTRY ==>
      var child := Target(mem[a][path[0]]);
      && child in owner && Indices(path[1..]) && |path[1..]| + |owner[child]| == 4
      && Leaf(mem, a, path) == Leaf(mem, child, path[1..]) && Missing(mem, a, path) == Missing(mem, child, path[1..])
  {
    assert path[0] < ENTRIES;
    if |path| > 1 && mem[a][path[0]] != NULL_ENTRY {
      ChildOwned(mem, owner, a, path);
      Unfold(mem, owner, a, path);
    }
  }

  /** For every page whose tables all exist: they still do, and slot 0 of the visited ones
      is populated exactly where it was. */
  ghost predicate SlotsKept(mem: Memory, mem': Memory, root: nat) {
    forall p: nat :: p < PAGES && Missing(mem, root, Path(p)) == 0 ==>
                       && Missing(mem', root, Path(p)) == 0
                       && SlotZero(mem', root, Path(p)) == SlotZero(mem, root, Path(p))
  }

  lemma SlotsKeptRefl(mem: Memory, root: nat)
    ensures SlotsKept(mem, mem, root)
  {
  }

  lemma SlotsKeptTrans(a: Memory, b: Memory, c: Memory, root: nat)
    requires SlotsKept(a, b, root) && SlotsKept(b, c, root)
    ensures SlotsKept(a, c, root)
  {
  }

  /** A leaf is written in a last-level table: the inner entries, hence what paging_get
      finds, stay. */
  lemma SetLeafSlots(mem: Memory, owner: map<nat, seq<nat>>, root: nat, pt: nat, k: nat, e: Entry)
    requires Tree(mem, owner) && root in owner && owner[root] == []
    requires pt in owner && |owner[pt]| == 3 && pt in mem && k < |mem[pt]| && k < ENTRIES
    ensures SlotsKept(mem, Set(mem, pt, k, e), root)
  {
    hide Path, Missing, SlotZero, Tree;
    forall p: nat | p < PAGES && Missing(mem, root, Path(p)) == 0
      ensures Missing(Set(mem, pt, k, e), root, Path(p)) == 0
      ensures SlotZero(Set(mem, pt, k, e), root, Path(p)) == SlotZero(mem, root, Path(p))
    {
      MissingFrame(mem, owner, pt, k, e, root, Path(p));
      SlotFrame(mem, owner, root, pt, k, e, Path(p));
    }
  }

  lemma SlotFrame(mem: Memory, owner: map<nat, seq<nat>>, root: nat, pt: nat, k: nat, e: Entry, path: seq<nat>)
    requires Tree(mem, owner) && root in owner && owner[root] == []
    requires pt in owner && |owner[pt]| == 3 && pt in mem && k < |mem[pt]| && k < ENTRIES
    requires |path| == 4 && Indices(path) && Missing(mem, root, path) == 0
    ensures SlotZero(Set(mem, pt, k, e), root, path) == SlotZero(mem, root, path)
  {
    hide Tree, Target, Leaf, Missing, Indices;
    StepDown(mem, owner, root, path);
    var pdpt := Target(mem[root][path[0]]);
    StepDown(mem, owner, pdpt, path[1..]);
    assert path[1..][0] == path[1];
  }

  /** Writing the leaf of one page. */
  lemma SetLeafIn(mem: Memory, owner: map<nat, seq<nat>>, root: nat, page: nat, pt: nat, e: Entry)
    requires Tree(mem, owner) && root in owner && owner[root] == [] && page < PAGES && pt in owner
    requires owner[pt] + [Path(page)[3]] == Path(page)
    requires Reach(mem, root, Path(page)) == pt && Missing(mem, root, Path(page)) == 0
    ensures var mem' := Set(mem, pt, Path(page)[3], e);
            && Leaf(mem, root, Path(page)) == mem[pt][Path(page)[3]]
            && Leaf(mem', root, Path(page)) == e
            && forall p: nat :: p < PAGES ==>
              && (p != page ==> Leaf(mem', root, Path(p)) == Leaf(mem, root, Path(p)))
              && Missing(mem', root, Path(p)) == Missing(mem, root, Path(p))
  {
    var k := Path(page)[3];
    assert |owner[pt]| == 3 && pt in mem && k < |mem[pt]|;
    hide Path, Leaf, Missing, Reach, Tree;
    SetLeafHere(mem, owner, pt, k, e, root, Path(page));
    forall p: nat | p < PAGES
      ensures p != page ==> Leaf(Set(mem, pt, k, e), root, Path(p)) == Leaf(mem, root, Path(p))
      ensures Missing(Set(mem, pt, k, e), root, Path(p)) == Missing(mem, root, Path(p))
    {
      MissingFrame(mem, owner, pt, k, e, root, Path(p));
      if p != page {
        if Path(p) == Path(page) { PathInjective(p, page); }
        SetLeafOther(mem, owner, pt, k, e, root, Path(p));
      }
    }
  }

  lemma MissingBound(mem: Memory, a: nat, path: seq<nat>)
    requires |path| >= 1
    ensures Missing(mem, a, path) < |path|
    decreases |path|
  {
  }

  lemma PageShift(va: nat, i: nat)
    requires Page(va) + i < PAGES
    ensures Page(va + i * PAGE_SIZE) == Page(va) + i
  {
    var q := va / PAGE_SIZE;
    assert (va + i * PAGE_SIZE) / PAGE_SIZE == q + i;
    assert q == PAGES * (q / PAGES) + Page(va);
    Quotient(q + i, PAGES, q / PAGES, Page(va) + i);
  }

  predicate IsSuffix<T(==)>(s: seq<T>, t: seq<T>) {
    |s| <= |t| && s == t[|t| - |s|..]
  }

  lemma SuffixRefl<T>(s: seq<T>)
    ensures IsSuffix(s, s)
  {
  }

  lemma SuffixTrans<T>(s: seq<T>, t: seq<T>, u: seq<T>)
    requires IsSuffix(s, t) && IsSuffix(t, u)
    ensures IsSuffix(s, u)
    ensures |s| == |u| ==> s == u
  {
  }

  lemma Unfold(mem: Memory, owner: map<nat, seq<nat>>, a: nat, path: seq<nat>)
    requires Tree(mem, owner) && a in owner && Indices(path) && 1 <= |path| && |path| + |owner[a]| == 4
    requires |path| == 1 || mem[a][path[0]] != NULL_ENTRY
    ensures |path| == 1 ==>
      && path[0] < |mem[a]| && Leaf(mem, a, path) == mem[a][path[0]]
      && Missing(mem, a, path) == 0 && Reach(mem, a, path) == a
    ensures |path| > 1 ==>
      && Reach(mem, a, path) == Reach(mem, Target(mem[a][path[0]]), path[1..])
      && Leaf(mem, a, path) == Leaf(mem, Target(mem[a][path[0]]), path[1..])
      && Missing(mem, a, path) == Missing(mem, Target(mem[a][path[0]]), path[1..])
  {
    assert path[0] < ENTRIES;
  }

  /** No leaf changed and no table went missing. */
  ghost predicate Grown(mem: Memory, mem': Memory, root: nat) {
    forall p: nat :: Leaf(mem', root, Path(p)) == Leaf(mem, root, Path(p))
      && Missing(mem', root, Path(p)) <= Missing(mem, root, Path(p))
  }

  lemma GrownTrans(a: Memory, b: Memory, c: Memory, root: nat)
    requires Grown(a, b, root) && Grown(b, c, root)
    ensures Grown(a, c, root)
  {
  }

  /** Tables and their non-null inner entries stay. */
  ghost predicate Kept(mem: Memory, mem': Memory, owner: map<nat, seq<nat>>, owner': map<nat, seq<nat>>) {
    forall b :: b in owner ==> b in owner' && owner'[b] == owner[b] && b in mem && b in mem' && |mem'[b]| == |mem[b]| &&
                               forall j :: 0 <= j < |mem[b]| && mem[b][j] != NULL_ENTRY ==> mem'[b][j] == mem[b][j]
  }

  lemma KeptAt(mem: Memory, mem': Memory, owner: map<nat, seq<nat>>, owner': map<nat, seq<nat>>, b: nat, j: nat)
    requires Kept(mem, mem', owner, owner') && b in owner
    ensures b in owner' && owner'[b] == owner[b] && b in mem && b in mem' && |mem'[b]| == |mem[b]|
    ensures j < |mem[b]| && mem[b][j] != NULL_ENTRY ==> mem'[b][j] == mem[b][j]
  {
  }

  lemma KeptTrans(a: Memory, b: Memory, c: Memory, oa: map<nat, seq<nat>>, ob: map<nat, seq<nat>>, oc: map<nat,
      seq<nat>>)
    requires Kept(a, b, oa, ob) && Kept(b, c, ob, oc)
    ensures Kept(a, c, oa, oc)
  {
  }

  lemma KeptRefl(mem: Memory, owner: map<nat, seq<nat>>, root: nat)
    requires Tree(mem, owner)
    ensures Kept(mem, mem, owner, owner) && Grown(mem, mem, root)
  {
  }
}
