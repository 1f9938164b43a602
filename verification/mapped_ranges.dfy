/** A data heap and the paging heap in front of it, seen through the page tables: which
    block stands behind each page of the paging heap, what the lookup of multiheap_free
    answers for it, and what allocating and freeing a range does to both tables. Chains may
    be marked as the source marks them. */
module MappedRanges {
  import opened Common
  import opened BlockTable
  import opened HeapRuns
  import opened HeapAsWritten
  import opened PageTable
  import opened Paging

  /** An allocation of one block. */
  const SINGLE: BlockEntry := ChainEntry(true, false)

  /** The tables of a data heap at `base` and of its paging heap at `virt`, and the memory
      of the page tables. */
  datatype Snap = Snap(base: nat, virt: nat, table: seq<BlockEntry>, range: seq<BlockEntry>, mem: Memory, root: nat)
  {
    function BlockAt(b: nat): nat { base + b * BLOCK_SIZE }

    function PageAt(k: nat): nat { virt / PAGE_SIZE + k }

    /** The address in the last-level entry of page `k`. */
    function TargetAt(k: nat): nat { Target(Leaf(mem, root, Path(PageAt(k)))) }

    /** paging_get finds page `k`. */
    predicate Found(k: nat) { SlotZero(mem, root, Path(PageAt(k))) }

    /** The block of the data heap that the entry of page `k` points to. */
    function BlockBehind(k: nat): nat {
      if TargetAt(k) < base then 0 else (TargetAt(k) - base) / BLOCK_SIZE
    }

    /** Page `k` stands for block `b`, an allocation of one block. */
    predicate StandsFor(k: nat, b: nat) {
      b < |table| && table[b] == SINGLE && TargetAt(k) == BlockAt(b)
    }

    predicate TakenPage(k: nat) { k < |range| && Taken(range[k]) }

    /** All tables on the way to the pages of the paging heap exist. */
    ghost predicate Tabled() {
      && virt / PAGE_SIZE + |range| <= PAGES
      && forall k: nat :: k < |range| ==> Missing(mem, root, Path(PageAt(k))) == 0
    }

    /** Legal bytes, and the heaps lie where `multiheap_ready` puts them. */
    ghost predicate Sound() {
      && AllLegal(table) && AllLegal(range) && |table| == |range| && Tabled()
      && 0 < base && base + |table| * BLOCK_SIZE <= virt && virt % PAGE_SIZE == 0
    }

    /** The taken pages stand for distinct single blocks, the free ones for nothing or for
        themselves, as `multiheap_ready` and heap_free leave them. */
    ghost predicate RangesOk() {
      && (forall k: nat :: TakenPage(k) ==> StandsFor(k, BlockBehind(k)))
      && (forall j: nat, k: nat :: TakenPage(j) && TakenPage(k) && j != k ==> BlockBehind(j) != BlockBehind(k))
      && (forall k: nat :: k < |range| && !TakenPage(k) ==> TargetAt(k) == 0 || TargetAt(k) == virt + k * BLOCK_SIZE)
    }
  }

  // ------------------------------------------------------------- the answers

  /** What paging_get_physical_address answers for a page of the paging heap: NULL, a
      block of the data heap, or the address of the page itself. */
  datatype Answer = Nothing | Backing(b: nat) | Itself

  predicate PageAnswers(s: Snap, k: nat, a: Answer) {
    && k < |s.range|
    && match a
       case Nothing => !s.Found(k) || s.TargetAt(k) == 0
       case Backing(b) => s.Found(k) && s.StandsFor(k, b)
       case Itself => s.Found(k) && s.range[k] == FREE && s.TargetAt(k) == s.virt + k * BLOCK_SIZE
  }

  /** The pointer that the answer is. */
  function Pointed(s: Snap, k: nat, a: Answer): nat {
    match a case Nothing => 0 case Backing(b) => s.BlockAt(b) case Itself => s.virt + k * BLOCK_SIZE
  }

  /** The answers for the pages from `k` on; no block is behind two of them. */
  ghost predicate Answered(s: Snap, k: nat, answers: seq<Answer>) {
    && (forall i :: 0 <= i < |answers| ==> PageAnswers(s, k + i, answers[i]))
    && (forall i, j :: 0 <= i < j < |answers| && answers[i].Backing? && answers[j].Backing? ==>
          answers[i].b != answers[j].b)
  }

  /** The blocks among the answers. */
  function Freed(answers: seq<Answer>): set<nat> {
    set i | 0 <= i < |answers| && answers[i].Backing? :: answers[i].b
  }

  /** How many pages answer with their own address. */
  function Selfs(answers: seq<Answer>): (n: nat)
    ensures n <= |answers|
    ensures n == 0 <==> forall i :: 0 <= i < |answers| ==> !answers[i].Itself?
  {
    if answers == [] then 0
    else Selfs(answers[..|answers| - 1]) + if answers[|answers| - 1].Itself? then 1 else 0
  }

  function AnswerOf(s: Snap, k: nat): Answer {
    if !s.Found(k) || s.TargetAt(k) == 0 then Nothing
    else if s.TakenPage(k) then Backing(s.BlockBehind(k))
    else Itself
  }

  lemma AnswerFits(s: Snap, k: nat)
    requires s.Sound() && s.RangesOk() && k < |s.range|
    ensures PageAnswers(s, k, AnswerOf(s, k))
  {
    hide Leaf, Path, SlotZero, Missing;
    assert Legal(s.range[k]);
  }

  lemma AnswerBehind(s: Snap, k: nat)
    ensures AnswerOf(s, k).Backing? <==> s.Found(k) && s.TargetAt(k) != 0 && s.TakenPage(k)
    ensures AnswerOf(s, k).Backing? ==> AnswerOf(s, k).b == s.BlockBehind(k)
    ensures AnswerOf(s, k).Itself? <==> s.Found(k) && s.TargetAt(k) != 0 && !s.TakenPage(k)
  {
  }

  lemma Distinct(s: Snap, j: nat, k: nat)
    requires s.RangesOk() && s.TakenPage(j) && s.TakenPage(k) && j != k
    ensures s.BlockBehind(j) != s.BlockBehind(k)
  {
  }

  /** Where the pages stand as they should, every stretch of the paging heap is answered. */
  lemma AnswersFor(s: Snap, k: nat, n: nat) returns (answers: seq<Answer>)
    requires s.Sound() && s.RangesOk() && k + n <= |s.range|
    ensures |answers| == n && Answered(s, k, answers)
    ensures forall i :: 0 <= i < n ==> answers[i] == AnswerOf(s, k + i)
  {
    hide AnswerOf, PageAnswers, Snap.Sound, Snap.RangesOk, Snap.BlockBehind, Snap.TakenPage;
    answers := seq(n, i requires 0 <= i < n => AnswerOf(s, k + i));
    forall i | 0 <= i < n
      ensures PageAnswers(s, k + i, answers[i])
    {
      AnswerFits(s, k + i);
    }
    forall i, j | 0 <= i < j < n && answers[i].Backing? && answers[j].Backing?
      ensures answers[i].b != answers[j].b
    {
      AnswerBehind(s, k + i);
      AnswerBehind(s, k + j);
      Distinct(s, k + i, k + j);
    }
  }

  lemma FreedMore(answers: seq<Answer>, a: Answer)
    ensures Freed(answers + [a]) == Freed(answers) + Freed([a])
    ensures Freed([a]) == if a.Backing? then {a.b} else {}
    ensures Selfs(answers + [a]) == Selfs(answers) + Selfs([a])
    ensures Selfs([a]) == if a.Itself? then 1 else 0
  {
    var more := answers + [a];
    assert more[..|answers|] == answers;
    assert forall i :: 0 <= i < |answers| ==> more[i] == answers[i];
    assert [a][..0] == [] && [a][0] == a;
  }

  /** Page `p` answers with its own address, the first answer being that of page `first`. */
  predicate SelfPage(p: nat, first: nat, answers: seq<Answer>) {
    first <= p < first + |answers| && answers[p - first].Itself?
  }

  /** The last-level entry of page `p` once all these answers have been freed. */
  function SelfLeaf(was: Entry, p: nat, first: nat, answers: seq<Answer>): Entry {
    if SelfPage(p, first, answers) then Mapped(was, 0, 0) else was
  }

  // --------------------------------------------------- tables block by block

  function Elements(s: seq<nat>): set<nat> { set b | b in s }

  /** The table after each block of `bs` has been allocated on its own. */
  function TakeEach(t: seq<BlockEntry>, bs: set<nat>): (r: seq<BlockEntry>)
    ensures |r| == |t|
    ensures forall i :: 0 <= i < |t| ==> r[i] == if i in bs then SINGLE else t[i]
  {
    seq(|t|, i requires 0 <= i < |t| => if i in bs then SINGLE else t[i])
  }

  function FreeEach(t: seq<BlockEntry>, bs: set<nat>): (r: seq<BlockEntry>)
    ensures |r| == |t|
    ensures forall i :: 0 <= i < |t| ==> r[i] == if i in bs then FREE else t[i]
  {
    seq(|t|, i requires 0 <= i < |t| => if i in bs then FREE else t[i])
  }

  /** `blocks` are `n` distinct blocks, free in `before`, each allocated alone in `after`. */
  ghost predicate Backed(before: seq<BlockEntry>, after: seq<BlockEntry>, blocks: seq<nat>, n: nat) {
    && |blocks| == n && |after| == |before|
    && (forall i :: 0 <= i < n ==> blocks[i] < |before| && before[blocks[i]] == FREE)
    && (forall i, j :: 0 <= i < j < n ==> blocks[i] != blocks[j])
    && after == TakeEach(before, Elements(blocks))
  }

  lemma BackedLength(before: seq<BlockEntry>, after: seq<BlockEntry>, blocks: seq<nat>, n: nat)
    requires Backed(before, after, blocks, n)
    ensures |blocks| == n
  {
  }

  lemma BackedNone(t: seq<BlockEntry>)
    ensures Backed(t, t, [], 0)
  {
  }

  lemma BackedMore(t: seq<BlockEntry>, e: seq<BlockEntry>, blocks: seq<nat>, b: nat)
    requires Backed(t, e, blocks, |blocks|) && b < |e| && e[b] == FREE
    ensures Backed(t, MarkTaken(e, b, 1), blocks + [b], |blocks| + 1)
  {
    var more := blocks + [b];
    assert SINGLE != FREE;
    assert b !in Elements(blocks);
    forall x ensures x in Elements(more) <==> x in Elements(blocks) || x == b {
      if x in Elements(blocks) { var j :| 0 <= j < |blocks| && blocks[j] == x; assert more[j] == x; }
      assert more[|blocks|] == b;
    }
    assert MarkTaken(e, b, 1) == TakeEach(t, Elements(more));
  }

  /** Freeing blocks that a second pass took, and blocks that were taken before it, gives
      the old table back exactly when they are the blocks of the pass. */
  lemma FreedBackIff(before: seq<BlockEntry>, after: seq<BlockEntry>, blocks: seq<nat>, freed: set<nat>)
    requires Backed(before, after, blocks, |blocks|)
    requires forall b :: b in freed ==> b < |after| && after[b] == SINGLE
    ensures FreeEach(after, freed) == before <==> freed == Elements(blocks)
  {
    var back := FreeEach(after, freed);
    assert SINGLE != FREE;
    forall b | b in Elements(blocks)
      ensures b < |before| && before[b] == FREE && after[b] == SINGLE
    {
      var i :| 0 <= i < |blocks| && blocks[i] == b;
    }
    if back == before {
      forall b ensures b in freed <==> b in Elements(blocks) {
        if b in Elements(blocks) { assert back[b] == FREE; }
        if b in freed { assert back[b] == FREE; }
      }
    }
  }

  // ------------------------------------------------------------ second passes

  /** A second pass of `n` blocks: the range at `start` of the paging heap stands, page by
      page, for `blocks`. */
  ghost predicate Passed(s: Snap, u: Snap, start: nat, n: nat, blocks: seq<nat>) {
    && u.base == s.base && u.virt == s.virt && u.root == s.root && |u.range| == |s.range|
    && n > 0 && FreeRun(s.range, start, n) && Backed(s.table, u.table, blocks, n)
    && (forall k: nat :: k < |s.range| ==> u.Found(k) == s.Found(k))
    && (forall k: nat :: k < |s.range| ==>
          u.TargetAt(k) == if start <= k < start + n then s.BlockAt(blocks[k - start]) else s.TargetAt(k))
    && (forall k: nat :: k < |s.range| ==>
          (start <= k < start + n ==> Taken(u.range[k])) && (!(start <= k < start + n) ==> u.range[k] == s.range[k]))
  }

  lemma SameTargets(s: Snap, u: Snap)
    requires s.RangesOk() && u.base == s.base && u.virt == s.virt && u.table == s.table && u.range == s.range
    requires forall k: nat :: k < |s.range| ==> u.TargetAt(k) == s.TargetAt(k)
    ensures u.RangesOk()
  {
    hide Path, Leaf, Target, SlotZero, Snap.TargetAt, Taken;
    forall k: nat | k < |u.range|
      ensures u.TakenPage(k) == s.TakenPage(k) && u.BlockBehind(k) == s.BlockBehind(k)
      ensures u.StandsFor(k, u.BlockBehind(k)) == s.StandsFor(k, s.BlockBehind(k))
      ensures u.TargetAt(k) == s.TargetAt(k)
    {
    }
  }

  lemma PassedFrom(s: Snap, u: Snap, start: nat, n: nat, blocks: seq<nat>)
    requires u.base == s.base && u.virt == s.virt && u.root == s.root && |u.range| == |s.range|
    requires n > 0 && FreeRun(s.range, start, n) && Backed(s.table, u.table, blocks, n) && |blocks| == n
    requires u.range == MarkTaken(s.range, start, n) || u.range == MarkTakenAsWritten(s.range, start, n)
    requires forall k: nat :: k < |s.range| ==>
      && u.Found(k) == s.Found(k) && (!(start <= k < start + n) ==> u.TargetAt(k) == s.TargetAt(k))
      && (start <= k < start + n ==> u.TargetAt(k) == u.BlockAt(blocks[k - start]))
    ensures Passed(s, u, start, n, blocks)
  {
    hide Path, Leaf, Target, SlotZero, Snap.TargetAt, Snap.Found, Taken, Backed;
  }

  /** The block behind a page of the new range, and behind any other page. */
  lemma PassedBehind(s: Snap, u: Snap, start: nat, n: nat, blocks: seq<nat>, k: nat)
    requires Passed(s, u, start, n, blocks) && k < |s.range|
    ensures start <= k < start + n ==> u.StandsFor(k, blocks[k - start]) && u.BlockBehind(k) == blocks[k - start]
    ensures !(start <= k < start + n) ==> u.BlockBehind(k) == s.BlockBehind(k) && u.TakenPage(k) == s.TakenPage(k)
    ensures !(start <= k < start + n) && s.StandsFor(k, s.BlockBehind(k)) ==> u.StandsFor(k, s.BlockBehind(k))
  {
    hide Leaf, Path, SlotZero, Missing, Target;
    assert SINGLE != FREE;
    if start <= k < start + n {
      assert blocks[k - start] in Elements(blocks);
    } else if s.StandsFor(k, s.BlockBehind(k)) {
      NotTaken(s, blocks, s.BlockBehind(k));
    }
  }

  /** The pages from `start` on are taken and stand, one by one, for distinct `blocks`. */
  ghost predicate Standing(s: Snap, start: nat, blocks: seq<nat>) {
    && start + |blocks| <= |s.range|
    && (forall i :: 0 <= i < |blocks| ==> s.TakenPage(start + i) && s.StandsFor(start + i, blocks[i]))
    && (forall i, j :: 0 <= i < j < |blocks| ==> blocks[i] != blocks[j])
  }

  lemma PassedStands(s: Snap, u: Snap, start: nat, n: nat, blocks: seq<nat>)
    requires Passed(s, u, start, n, blocks)
    ensures Standing(u, start, blocks) && |blocks| == n
  {
    PassedParts(s, u, start, n, blocks);
    hide Leaf, Path, SlotZero, Missing, Target, Snap.StandsFor, Snap.BlockBehind, Snap.TargetAt, Snap.Found, TakeEach,
         Taken;
    forall i | 0 <= i < |blocks|
      ensures u.TakenPage(start + i) && u.StandsFor(start + i, blocks[i])
    {
      PassedBehind(s, u, start, n, blocks, start + i);
    }
  }

  lemma NotTaken(s: Snap, blocks: seq<nat>, b: nat)
    requires forall i :: 0 <= i < |blocks| ==> blocks[i] < |s.table| && s.table[blocks[i]] == FREE
    requires b < |s.table| && s.table[b] == SINGLE
    ensures b !in Elements(blocks) && forall i :: 0 <= i < |blocks| ==> blocks[i] != b
  {
    assert SINGLE != FREE;
  }

  /** A second pass keeps the pages as they should be. */
  lemma PassedOk(s: Snap, u: Snap, start: nat, n: nat, blocks: seq<nat>)
    requires Passed(s, u, start, n, blocks) && s.RangesOk()
    ensures u.RangesOk()
  {
    hide Leaf, Path, SlotZero, Missing, Target, Snap.StandsFor, Snap.BlockBehind, Snap.TargetAt, Snap.Found;
    forall k: nat | k < |s.range|
      ensures u.TakenPage(k) ==> u.StandsFor(k, u.BlockBehind(k))
      ensures !u.TakenPage(k) ==> u.TargetAt(k) == 0 || u.TargetAt(k) == u.virt + k * BLOCK_SIZE
    {
      PassedBehind(s, u, start, n, blocks, k);
    }
    forall j: nat, k: nat | u.TakenPage(j) && u.TakenPage(k) && j != k
      ensures u.BlockBehind(j) != u.BlockBehind(k)
    {
      PassedDistinct(s, u, start, n, blocks, j, k);
    }
  }

  lemma PassedDistinct(s: Snap, u: Snap, start: nat, n: nat, blocks: seq<nat>, j: nat, k: nat)
    requires Passed(s, u, start, n, blocks) && s.RangesOk() && u.TakenPage(j) && u.TakenPage(k) && j != k
    ensures u.BlockBehind(j) != u.BlockBehind(k)
  {
    hide Leaf, Path, SlotZero, Missing, Target, Snap.BlockBehind, Snap.TargetAt, Snap.Found;
    PassedBehind(s, u, start, n, blocks, j);
    PassedBehind(s, u, start, n, blocks, k);
    if start <= k < start + n && !(start <= j < start + n) {
      NotTaken(s, blocks, s.BlockBehind(j));
    }
    if start <= j < start + n && !(start <= k < start + n) {
      NotTaken(s, blocks, s.BlockBehind(k));
    }
  }

  // --------------------------------------- what freeing a fresh range visits

  ghost predicate AllFoundIn(s: Snap, lo: nat, n: nat) { forall k: nat :: lo <= k < lo + n ==> s.Found(k) }

  ghost predicate NoneFoundIn(s: Snap, lo: nat, n: nat) { forall k: nat :: lo <= k < lo + n ==> !s.Found(k) }

  /** Page `k` is free and answers with its own address. */
  predicate FreeButFound(s: Snap, k: nat) { !s.TakenPage(k) && s.Found(k) && s.TargetAt(k) != 0 }

  /** The loop of multiheap_free over a range of a second pass, as it is written: it visits
      `count` pages from twice the block number of the range on, `count` being what
      heap_allocation_block_count says. */
  ghost predicate Visits(u: Snap, start: nat, count: nat, visited: seq<Answer>) {
    && count == |visited| && start + start + count <= |u.range|
    && Answered(u, start + start, visited)
    && (forall i :: 0 <= i < count ==> visited[i] == AnswerOf(u, start + start + i))
    && (forall k: nat :: start <= k < start + count ==> u.TakenPage(k))
  }

  lemma VisitedFreed(u: Snap, start: nat, count: nat, visited: seq<Answer>, b: nat) returns (k: nat)
    requires Visits(u, start, count, visited) && b in Freed(visited)
    ensures b < |u.table| && u.table[b] == SINGLE
    ensures start + start <= k < start + start + count && u.Found(k) && u.TakenPage(k) && u.BlockBehind(k) == b
  {
    hide Leaf, Path, SlotZero, Missing, Target, Snap.BlockBehind, Snap.TargetAt, Snap.Found, AnswerOf, Snap.TakenPage;
    var i :| 0 <= i < |visited| && visited[i].Backing? && visited[i].b == b;
    assert PageAnswers(u, start + start + i, visited[i]);
    k := start + start + i;
    AnswerBehind(u, k);
  }

  lemma FoundFreed(u: Snap, start: nat, count: nat, visited: seq<Answer>, k: nat)
    requires Visits(u, start, count, visited) && u.Sound() && u.RangesOk()
    requires start + start <= k < start + start + count && u.Found(k) && u.TakenPage(k)
    ensures u.BlockBehind(k) in Freed(visited)
  {
    hide Leaf, Path, SlotZero, Missing, Target, Snap.BlockBehind, Snap.TargetAt, Snap.Found, AnswerOf, Snap.TakenPage;
    assert u.StandsFor(k, u.BlockBehind(k)) && u.TargetAt(k) != 0;
    AnswerBehind(u, k);
    var i := k - (start + start);
    assert visited[i] == AnswerOf(u, k);
  }

  lemma PassedParts(s: Snap, u: Snap, start: nat, n: nat, blocks: seq<nat>)
    requires Passed(s, u, start, n, blocks)
    ensures Backed(s.table, u.table, blocks, n) && |blocks| == n > 0 && Backed(s.table, u.table, blocks, |blocks|)
    ensures start + n <= |s.range| == |u.range|
    ensures forall k: nat :: k < |s.range| ==> u.Found(k) == s.Found(k)
    ensures forall k: nat :: start <= k < start + n ==> u.TakenPage(k)
  {
    hide Leaf, Path, SlotZero, Missing, Target, Snap.Found, Snap.TargetAt;
  }

  lemma VisitsParts(u: Snap, start: nat, count: nat, visited: seq<Answer>)
    requires Visits(u, start, count, visited)
    ensures start + start + count <= |u.range| && forall k: nat :: start <= k < start + count ==> u.TakenPage(k)
  {
  }

  /** The first block of a range further up is not visited. */
  lemma OwnBlockKept(s: Snap, u: Snap, start: nat, n: nat, blocks: seq<nat>, count: nat, visited: seq<Answer>)
    requires Passed(s, u, start, n, blocks) && u.RangesOk() && Visits(u, start, count, visited) && start > 0
    ensures Freed(visited) != Elements(blocks)
  {
    hide *;
    PassedParts(s, u, start, n, blocks);
    PassedBehind(s, u, start, n, blocks, start);
    ElementAt(blocks, 0);
    if blocks[0] in Freed(visited) {
      var k := VisitedFreed(u, start, count, visited, blocks[0]);
      Distinct(u, start, k);
    }
  }

  lemma ElementAt(s: seq<nat>, i: nat)
    requires i < |s|
    ensures s[i] in Elements(s)
  {
  }

  lemma ElementOf(s: seq<nat>, b: nat) returns (i: nat)
    requires b in Elements(s)
    ensures i < |s| && s[i] == b
  {
    i :| i < |s| && s[i] == b;
  }

  /** From block 0 on: what is freed is what stands behind the pages found. */
  lemma OwnFreed(s: Snap, u: Snap, n: nat, blocks: seq<nat>, count: nat, visited: seq<Answer>)
    requires Passed(s, u, 0, n, blocks) && u.RangesOk() && u.Sound() && Visits(u, 0, count, visited) && n <= count
    requires AllFoundIn(s, 0, n) && NoneFoundIn(s, n, count - n)
    ensures Freed(visited) == Elements(blocks)
  {
    hide Leaf, Path, SlotZero, Missing, Target, Snap.Found, Snap.TargetAt, Snap.BlockBehind, Snap.TakenPage,
         Snap.Sound, Snap.RangesOk, Passed, Visits, Freed, Elements;
    PassedParts(s, u, 0, n, blocks);
    VisitsParts(u, 0, count, visited);
    forall b
      ensures b in Freed(visited) <==> b in Elements(blocks)
    {
      if b in Freed(visited) {
        var k := VisitedFreed(u, 0, count, visited, b);
        PassedBehind(s, u, 0, n, blocks, k);
        ElementAt(blocks, k);
      }
      if b in Elements(blocks) {
        var i := ElementOf(blocks, b);
        PassedBehind(s, u, 0, n, blocks, i);
        FoundFreed(u, 0, count, visited, i);
      }
    }
  }

  lemma OnlyOwnFound(s: Snap, u: Snap, n: nat, blocks: seq<nat>, count: nat, visited: seq<Answer>)
    requires Passed(s, u, 0, n, blocks) && u.RangesOk() && u.Sound() && Visits(u, 0, count, visited) && n <= count
    requires Freed(visited) == Elements(blocks)
    ensures AllFoundIn(s, 0, n) && NoneFoundIn(s, n, count - n)
  {
    hide Leaf, Path, SlotZero, Missing, Target, Snap.Found, Snap.TargetAt, Snap.BlockBehind, Snap.TakenPage,
         Snap.Sound, Snap.RangesOk, Passed, Visits, Freed, Elements;
    PassedParts(s, u, 0, n, blocks);
    VisitsParts(u, 0, count, visited);
    forall k: nat | k < n
      ensures s.Found(k)
    {
      ElementAt(blocks, k);
      PassedBehind(s, u, 0, n, blocks, k);
      var j := VisitedFreed(u, 0, count, visited, blocks[k]);
      if j != k { Distinct(u, j, k); }
    }
    forall k: nat | n <= k < count
      ensures !s.Found(k)
    {
      if s.Found(k) {
        FoundFreed(u, 0, count, visited, k);
        var i := ElementOf(blocks, u.BlockBehind(k));
        PassedBehind(s, u, 0, n, blocks, i);
        Distinct(u, i, k);
      }
    }
  }

  /** The data heap is as before the pass exactly when the range starts at block 0, all its
      pages are found and none of those counted behind it. */
  lemma DataBackIff(s: Snap, u: Snap, start: nat, n: nat, blocks: seq<nat>, count: nat, visited: seq<Answer>)
    requires Passed(s, u, start, n, blocks) && s.RangesOk() && u.Sound() && n <= count
    requires Visits(u, start, count, visited)
    ensures FreeEach(u.table, Freed(visited)) == s.table <==>
            start == 0 && AllFoundIn(s, 0, n) && NoneFoundIn(s, n, count - n)
  {
    hide *;
    PassedOk(s, u, start, n, blocks);
    PassedParts(s, u, start, n, blocks);
    forall b | b in Freed(visited)
      ensures b < |u.table| && u.table[b] == SINGLE
    {
      var k := VisitedFreed(u, start, count, visited, b);
    }
    FreedBackIff(s.table, u.table, blocks, Freed(visited));
    if start > 0 {
      OwnBlockKept(s, u, start, n, blocks, count, visited);
    } else {
      if AllFoundIn(s, 0, n) && NoneFoundIn(s, n, count - n) {
        OwnFreed(s, u, n, blocks, count, visited);
      }
      if Freed(visited) == Elements(blocks) {
        OnlyOwnFound(s, u, n, blocks, count, visited);
      }
    }
  }

  /** None of the pages from `lo` on that were free before the pass, and still are, answers
      with its own address. */
  ghost predicate NoneFreeButFound(s: Snap, lo: nat, count: nat, start: nat, n: nat) {
    forall k: nat :: lo <= k < lo + count && !(start <= k < start + n) ==> !FreeButFound(s, k)
  }

  /** Page `p` of the page tables is such a page, among the `count` pages from twice the
      block number of the range on. */
  predicate FreeButFoundPage(s: Snap, p: nat, start: nat, count: nat, n: nat) {
    && s.PageAt(start + start) <= p < s.PageAt(start + start) + count
    && !(s.PageAt(start) <= p < s.PageAt(start) + n) && FreeButFound(s, p - s.PageAt(0))
  }

  /** Free pages of the paging heap before the pass among the visited ones: each is freed
      once more and counted. From block 0 on there are none. */
  lemma SelfsIff(s: Snap, u: Snap, start: nat, n: nat, blocks: seq<nat>, count: nat, visited: seq<Answer>)
    requires Passed(s, u, start, n, blocks) && Visits(u, start, count, visited)
    ensures Selfs(visited) == 0 <==> NoneFreeButFound(s, start + start, count, start, n)
    ensures start == 0 ==> Selfs(visited) == 0
    ensures forall p: nat ::
      SelfPage(p, u.PageAt(start + start), visited) <==> FreeButFoundPage(s, p, start, count, n)
  {
    hide Leaf, Path, SlotZero, Missing, Target, AnswerOf, PageAnswers, Selfs, Snap.Found, Snap.TargetAt, FreeButFound;
    forall i | 0 <= i < count
      ensures visited[i].Itself? <==>
        !(start <= start + start + i < start + n) && FreeButFound(s, start + start + i)
      ensures start == 0 ==> !visited[i].Itself?
    {
      SelfVisited(s, u, start, n, blocks, count, visited, i);
    }
    if !NoneFreeButFound(s, start + start, count, start, n) {
      var k: nat :| start + start <= k < start + start + count && !(start <= k < start + n) && FreeButFound(s, k);
      assert visited[k - (start + start)].Itself?;
    }
  }

  lemma SelfVisited(s: Snap, u: Snap, start: nat, n: nat, blocks: seq<nat>, count: nat, visited: seq<Answer>, i: nat)
    requires Passed(s, u, start, n, blocks) && Visits(u, start, count, visited) && i < count
    ensures visited[i].Itself? <==> !(start <= start + start + i < start + n) && FreeButFound(s, start + start + i)
    ensures start == 0 ==> !visited[i].Itself?
  {
    hide Leaf, Path, SlotZero, Missing, Target, AnswerOf, PageAnswers, Selfs;
    AnswerBehind(u, start + start + i);
  }

  // ---------------------------------------------------- the loop, page by page

  lemma HeadAnswers(s: Snap, k: nat, answers: seq<Answer>)
    requires Answered(s, k, answers) && answers != []
    ensures PageAnswers(s, k, answers[0])
  {
    assert PageAnswers(s, k + 0, answers[0]);
  }

  lemma TailAnswers(s: Snap, answers: seq<Answer>, k: nat, j: nat)
    requires j < |answers| && Answered(s, k + j, answers[j..])
    ensures answers[j..] != [] && answers[j..][0] == answers[j] && PageAnswers(s, k + j, answers[j])
  {
    HeadAnswers(s, k + j, answers[j..]);
  }

  lemma AnswerEntries(s: Snap, k: nat, a: Answer)
    requires PageAnswers(s, k, a)
    ensures a.Backing? ==> a.b < |s.table| && s.table[a.b] == SINGLE
    ensures k < |s.range| && (a.Itself? ==> s.range[k] == FREE)
  {
  }

  /** The two heaps of a node. */
  ghost predicate Viewed(s: Snap, data: State, range: State) {
    && data.table == s.table && |data.table| < WORD
    && range.table == s.range && range.used < WORD && range.free < WORD
  }

  /** The free counter of a heap is what its table says. */
  ghost predicate Exact(st: State) { st.free == |st.table| - Used(st.table) }

  /** The data heap once an answer has been freed. */
  ghost function AfterData(data: State, a: Answer): State {
    if a.Backing? && a.b < |data.table| then FreeStep(data, a.b) else data
  }

  /** The paging heap once the answer of page `k` has been freed. */
  ghost function AfterRange(range: State, k: nat, a: Answer): State {
    if a.Itself? && k < |range.table| then FreeStep(range, k) else range
  }

  lemma AfterCases(data: State, range: State, k: nat, a: Answer)
    ensures a.Backing? && a.b < |data.table| ==> AfterData(data, a) == FreeStep(data, a.b)
    ensures !a.Backing? ==> AfterData(data, a) == data
    ensures a.Itself? && k < |range.table| ==> AfterRange(range, k, a) == FreeStep(range, k)
    ensures !a.Itself? ==> AfterRange(range, k, a) == range
  {
  }

  lemma AfterAnswer(s: Snap, data: State, range: State, k: nat, a: Answer)
    requires Viewed(s, data, range) && PageAnswers(s, k, a)
    ensures AfterData(data, a).table == FreeEach(s.table, Freed([a]))
    ensures Exact(data) ==> Exact(AfterData(data, a))
    ensures AfterRange(range, k, a) == Counted(range, -(Selfs([a]) as int))
    ensures AfterRange(range, k, a).table == s.range
  {
    hide FreeStep, ChainLength, Used, Wrap;
    FreedMore([], a);
    if a.Backing? { SingleFreed(data, a.b); }
    if a.Itself? { FreeFreed(range, k); }
    assert !a.Backing? ==> FreeEach(data.table, {}) == data.table;
  }

  lemma AnsweredSingles(s: Snap, k: nat, answers: seq<Answer>)
    requires Answered(s, k, answers)
    ensures forall b :: b in Freed(answers) ==> b < |s.table| && s.table[b] == SINGLE
  {
    hide Leaf, Path, SlotZero, Target, Snap.TargetAt, Snap.Found;
    forall b | b in Freed(answers)
      ensures b < |s.table| && s.table[b] == SINGLE
    {
      var i :| 0 <= i < |answers| && answers[i].Backing? && answers[i].b == b;
      assert PageAnswers(s, k + i, answers[i]);
    }
  }

  /** Once the first page has been dealt with, the answers for the others still stand. */
  lemma RestAnswered(s: Snap, u: Snap, k: nat, answers: seq<Answer>)
    requires Answered(s, k, answers) && answers != []
    requires u.base == s.base && u.virt == s.virt && u.range == s.range
    requires u.table == FreeEach(s.table, Freed([answers[0]]))
    requires forall j: nat :: j < |s.range| && j != k ==> u.Found(j) == s.Found(j) && u.TargetAt(j) == s.TargetAt(j)
    ensures Answered(u, k + 1, answers[1..])
  {
    hide Leaf, Path, SlotZero, Target, Snap.TargetAt, Snap.Found, FreeEach;
    FreedMore([], answers[0]);
    assert [] + [answers[0]] == [answers[0]];
    var rest := answers[1..];
    forall i | 0 <= i < |rest|
      ensures PageAnswers(u, k + 1 + i, rest[i])
    {
      assert PageAnswers(s, k + (i + 1), answers[i + 1]) && rest[i] == answers[i + 1];
    }
    forall i, j | 0 <= i < j < |rest| && rest[i].Backing? && rest[j].Backing?
      ensures rest[i].b != rest[j].b
    {
      assert rest[i] == answers[i + 1] && rest[j] == answers[j + 1];
    }
  }

  /** A single block freed. */
  lemma SingleFreed(st: State, b: nat)
    requires b < |st.table| < WORD && st.table[b] == SINGLE
    ensures FreeStep(st, b).table == FreeEach(st.table, {b})
    ensures Exact(st) ==> Exact(FreeStep(st, b))
  {
    assert Taken(SINGLE) && !HasNext(SINGLE) && ChainLength(st.table, b) == 1;
    assert MarkFree(st.table, b, 1) == FreeEach(st.table, {b});
    MarkFreeUsed(st.table, b, 1);
  }

  /** A free block freed: only the counters change. */
  lemma FreeFreed(st: State, k: nat)
    requires k < |st.table| && st.table[k] == FREE
    ensures FreeStep(st, k) == Counted(st, -1)
  {
    FreeFacts();
    assert ChainLength(st.table, k) == 1;
    assert MarkFree(st.table, k, 1) == st.table;
  }

  /** What has been freed after one more page. */
  lemma NextFreed(t: seq<BlockEntry>, answers: seq<Answer>, j: nat, first: nat)
    requires j < |answers|
    ensures FreeEach(FreeEach(t, Freed(answers[..j])), Freed([answers[j]])) == FreeEach(t, Freed(answers[..j + 1]))
    ensures Selfs(answers[..j + 1]) == Selfs(answers[..j]) + Selfs([answers[j]])
    ensures forall was: Entry, p: nat ::
      SelfLeaf(was, p, first, answers[..j + 1]) ==
      if answers[j].Itself? && p == first + j then Mapped(SelfLeaf(was, p, first, answers[..j]), 0, 0)
        else SelfLeaf(was, p, first, answers[..j])
    ensures answers[j..][0] == answers[j] && answers[j..][1..] == answers[j + 1..]
  {
    assert answers[..j + 1] == answers[..j] + [answers[j]];
    FreedMore(answers[..j], answers[j]);
    forall p: nat
      ensures SelfPage(p, first, answers[..j + 1]) <==>
        SelfPage(p, first, answers[..j]) || (p == first + j && answers[j].Itself?)
    {
    }
  }

  lemma NoneFreed(t: seq<BlockEntry>, answers: seq<Answer>, first: nat)
    ensures FreeEach(t, Freed(answers[..0])) == t && Selfs(answers[..0]) == 0 && answers[0..] == answers
    ensures forall p: nat :: !SelfPage(p, first, answers[..0])
    ensures answers[..|answers|] == answers
  {
    assert Freed(answers[..0]) == {};
  }

  lemma CountedTwice(st: State, x: int, y: int)
    ensures Counted(Counted(st, x), y) == Counted(st, x + y)
  {
    WrapAdd(st.used + x, y);
    WrapAdd(st.free - x, -y);
  }

  lemma CountedNone(st: State)
    requires st.used < WORD && st.free < WORD
    ensures Counted(st, 0) == st
  {
  }

  // -------------------------------------------------------- freeing a range

  /** The last-level entry of page `p` once a range has been freed: `len` pages from
      `first` on are unmapped, and so are those that answered with their own address. */
  function FreedLeaf(was: Entry, p: nat, first: nat, len: nat, second: nat, answers: seq<Answer>): Entry {
    if first <= p < first + len then Mapped(was, 0, 0) else SelfLeaf(was, p, second, answers)
  }

  lemma FreedLeafTwice(was: Entry, p: nat, first: nat, len: nat, second: nat, answers: seq<Answer>)
    ensures FreedLeaf(was, p, first, len, second, answers) ==
      if first <= p < first + len then Mapped(SelfLeaf(was, p, second, answers), 0, 0)
        else SelfLeaf(was, p, second, answers)
    ensures FreedLeaf(was, p, first, len, second, answers) ==
      if first <= p < first + len || SelfPage(p, second, answers) then Mapped(was, 0, 0) else was
  {
  }

  lemma NoSelfLeaf(answers: seq<Answer>)
    requires Selfs(answers) == 0
    ensures forall was: Entry, p: nat, first: nat, len: nat, second: nat ::
      FreedLeaf(was, p, first, len, second, answers) == if first <= p < first + len then Mapped(was, 0, 0) else was
  {
  }

  /** The blocks that are counted are taken. */
  lemma CountedTaken(s: Snap, start: nat)
    requires AllLegal(s.range) && start < |s.range|
    ensures start + BlockCount(s.range, start) <= |s.range|
    ensures forall k: nat :: start <= k < start + BlockCount(s.range, start) ==> s.TakenPage(k)
  {
    CountedChain(s.range, start);
  }

  /** No page of a counted block answers with its own address. */
  lemma OwnNoSelfs(s: Snap, start: nat, answers: seq<Answer>)
    requires AllLegal(s.range) && start < |s.range| && |answers| == BlockCount(s.range, start)
    requires Answered(s, start, answers)
    ensures Selfs(answers) == 0
  {
    hide Leaf, Path, SlotZero, Target, Snap.TargetAt, Snap.Found, Selfs, BlockCount;
    CountedTaken(s, start);
    FreeFacts();
    forall i | 0 <= i < |answers|
      ensures !answers[i].Itself?
    {
      assert PageAnswers(s, start + i, answers[i]) && s.TakenPage(start + i);
    }
  }

  /** The pages of a fresh range, found or not, and what is freed when all of them are
      visited. */
  lemma OwnAnswers(s: Snap, u: Snap, start: nat, n: nat, blocks: seq<nat>) returns (answers: seq<Answer>)
    requires Passed(s, u, start, n, blocks)
    ensures |answers| == n && Answered(u, start, answers)
    ensures FreeEach(u.table, Freed(answers)) == s.table <==> AllFoundIn(s, start, n)
  {
    hide Leaf, Path, SlotZero, Target, Snap.TargetAt, Snap.Found, Freed, Snap.StandsFor, Snap.BlockBehind, Elements,
         TakeEach, FreeEach;
    PassedParts(s, u, start, n, blocks);
    answers := seq(n, i requires 0 <= i < n => if u.Found(start + i) then Backing(blocks[i]) else Nothing);
    forall i | 0 <= i < n
      ensures PageAnswers(u, start + i, answers[i])
    {
      PassedBehind(s, u, start, n, blocks, start + i);
    }
    AnsweredSingles(u, start, answers);
    FreedBackIff(s.table, u.table, blocks, Freed(answers));
    OwnFreedIff(u, start, n, blocks, answers);
  }

  lemma OwnFreedIff(u: Snap, start: nat, n: nat, blocks: seq<nat>, answers: seq<Answer>)
    requires |answers| == n == |blocks| && forall i, j :: 0 <= i < j < n ==> blocks[i] != blocks[j]
    requires forall i :: 0 <= i < n ==> answers[i] == if u.Found(start + i) then Backing(blocks[i]) else Nothing
    ensures Freed(answers) == Elements(blocks) <==> forall k: nat :: start <= k < start + n ==> u.Found(k)
  {
    hide Leaf, Path, SlotZero, Target, Snap.Found, Elements;
    if forall k: nat :: start <= k < start + n ==> u.Found(k) {
      forall b
        ensures b in Freed(answers) <==> b in Elements(blocks)
      {
        if b in Freed(answers) {
          var i :| 0 <= i < n && answers[i].Backing? && answers[i].b == b;
          ElementAt(blocks, i);
        }
        if b in Elements(blocks) {
          var i := ElementOf(blocks, b);
          assert u.Found(start + i) && answers[i] == Backing(b);
        }
      }
    }
    if Freed(answers) == Elements(blocks) {
      forall k: nat | start <= k < start + n
        ensures u.Found(k)
      {
        ElementAt(blocks, k - start);
        var i :| 0 <= i < n && answers[i].Backing? && answers[i].b == blocks[k - start];
        assert answers[i].b == blocks[i];
      }
    }
  }

  /** Freeing the blocks behind `n` pages from page `start` of `behind` on is freeing those
      behind its first `n` pages, the first of which is found, exactly when `start` is 0. */
  lemma IndexIff(s: Snap, k: nat, behind: seq<Answer>, start: nat, n: nat)
    requires n > 0 && |behind| == start + n && Answered(s, k, behind) && behind[0].Backing?
    ensures FreeEach(s.table, Freed(behind[start..])) == FreeEach(s.table, Freed(behind[..n])) <==> start == 0
  {
    hide Leaf, Path, SlotZero, Target, Snap.TargetAt, Snap.Found;
    if start == 0 {
      assert behind[start..] == behind[..n];
    } else {
      var b := behind[0].b;
      HeadAnswers(s, k, behind);
      assert behind[..n][0] == behind[0] && b in Freed(behind[..n]);
      forall i | 0 <= i < |behind[start..]| && behind[start..][i].Backing?
        ensures behind[start..][i].b != b
      {
        assert behind[start..][i] == behind[start + i];
      }
      assert FreeEach(s.table, Freed(behind[start..]))[b] == s.table[b] == SINGLE != FREE;
    }
  }

  lemma TailAnswered(s: Snap, k: nat, behind: seq<Answer>, from: nat)
    requires Answered(s, k, behind) && from <= |behind|
    ensures Answered(s, k + from, behind[from..])
  {
    hide Leaf, Path, SlotZero, Target, Snap.TargetAt, Snap.Found, PageAnswers;
    var rest := behind[from..];
    forall i | 0 <= i < |rest|
      ensures PageAnswers(s, k + from + i, rest[i])
    {
      assert PageAnswers(s, k + (from + i), behind[from + i]) && rest[i] == behind[from + i];
    }
    forall i, j | 0 <= i < j < |rest| && rest[i].Backing? && rest[j].Backing?
      ensures rest[i].b != rest[j].b
    {
      assert rest[i] == behind[from + i] && rest[j] == behind[from + j];
    }
  }

  /** Three pages backed by blocks 0, 1, 2 and the range of page 1 freed as written: the
      block behind page 2 is freed, the block of the range is not. */
  lemma IndexExample(t: seq<BlockEntry>)
    requires t == [SINGLE, SINGLE, SINGLE]
    ensures FreeEach(t, Freed([Backing(1), Backing(2)][1..])) == [SINGLE, SINGLE, FREE]
    ensures FreeEach(t, Freed([Backing(1), Backing(2)][..1])) == [SINGLE, FREE, SINGLE]
  {
    assert [Backing(1), Backing(2)][1..] == [] + [Backing(2)] && [Backing(1), Backing(2)][..1] == [] + [Backing(1)];
    assert [] + [Backing(2)] == [Backing(2)] && [] + [Backing(1)] == [Backing(1)];
    FreedMore([], Backing(2));
    FreedMore([], Backing(1));
    var u, v := FreeEach(t, {2}), FreeEach(t, {1});
  }

  // ----------------------------------------------- a pass undone as written

  /** A second pass with the chain marked as written, and what the free of its range
      visits. */
  ghost predicate WrittenPass(s: Snap, u: Snap, start: nat, n: nat, blocks: seq<nat>, was: State) {
    && Passed(s, u, start, n, blocks) && s.RangesOk() && u.Sound() && AllLegal(s.range)
    && was.table == s.range && was.used < WORD && was.free < WORD && 2 * |s.range| < WORD
    && FirstFit(s.range, n) == start && u.range == MarkTakenAsWritten(s.range, start, n)
  }

  /** The blocks that heap_allocation_block_count finds for a fresh range of `n` blocks: its
      own, and where it has two or more and stops short of the end those of the chain that
      it runs into. */
  function Counting(t: seq<BlockEntry>, start: nat, n: nat): nat {
    n + if n == 1 || start + n >= |t| then 0 else BlockCount(t, start + n)
  }

  lemma FoundOrNot(s: Snap, n: nat, count: nat)
    requires n <= count && AllFoundIn(s, 0, count)
    ensures AllFoundIn(s, 0, n) && (NoneFoundIn(s, n, count - n) <==> count == n)
  {
    if count > n { assert s.Found(n); }
  }

  lemma WrittenFrom(s: Snap, u: Snap, start: nat, n: nat, blocks: seq<nat>, data: State, was: State)
    requires Passed(s, u, start, n, blocks) && s.RangesOk() && u.Sound() && AllLegal(s.range) && 2 * |s.range| < WORD
    requires Viewed(s, data, was) && FirstFit(s.range, n) == start
    requires u.range == MallocStepAsWritten(was, n).table
    ensures WrittenPass(s, u, start, n, blocks, was) && start < |s.range|
    ensures u.range == MarkTakenAsWritten(s.range, start, n)
  {
    hide Passed, Snap.RangesOk, Snap.Sound, AllLegal, MarkTakenAsWritten;
  }

  lemma WrittenParts(s: Snap, u: Snap, start: nat, n: nat, blocks: seq<nat>, was: State)
    requires WrittenPass(s, u, start, n, blocks, was)
    ensures start < |u.range| && start + n <= |s.range| && n > 0 && AllLegal(u.range)
    ensures var count := BlockCount(u.range, start);
            && n <= count <= |u.range| - start && count == Counting(s.range, start, n)
            && (count == n <==> n == 1 || start + n == |s.range| || s.range[start + n] == FREE)
  {
    hide Snap.RangesOk, MarkTakenAsWritten, BlockCount, Backed;
    CountBehind(s.range, start, n);
  }

  lemma WrittenVisits(s: Snap, u: Snap, start: nat, n: nat, blocks: seq<nat>, was: State) returns (behind: seq<Answer>)
    requires WrittenPass(s, u, start, n, blocks, was) && start < |u.range|
    requires start + start + BlockCount(u.range, start) <= |u.range|
    ensures |behind| == start + BlockCount(u.range, start) && Answered(u, start, behind)
    ensures Visits(u, start, BlockCount(u.range, start), behind[start..])
  {
    hide *;
    WrittenSound(s, u, start, n, blocks, was);
    var count := BlockCount(u.range, start);
    behind := AnswersFor(u, start, start + count);
    TailAnswered(u, start, behind, start);
    CountedTaken(u, start);
    VisitsFrom(u, start, count, behind);
  }

  lemma WrittenSound(s: Snap, u: Snap, start: nat, n: nat, blocks: seq<nat>, was: State)
    requires WrittenPass(s, u, start, n, blocks, was)
    ensures u.Sound() && u.RangesOk() && AllLegal(u.range)
    ensures Passed(s, u, start, n, blocks) && s.RangesOk() && FirstFit(was.table, n) == start && was.table == s.range
    ensures was.used < WORD && was.free < WORD && 2 * |was.table| < WORD
    ensures u.range == MarkTakenAsWritten(s.range, start, n) && u.virt == s.virt
  {
    hide Snap.RangesOk, Passed, Snap.Tabled, AllLegal;
    PassedOk(s, u, start, n, blocks);
    PassedVirt(s, u, start, n, blocks);
  }

  lemma PassedVirt(s: Snap, u: Snap, start: nat, n: nat, blocks: seq<nat>)
    requires Passed(s, u, start, n, blocks)
    ensures u.virt == s.virt
  {
  }

  lemma VisitsFrom(u: Snap, start: nat, count: nat, behind: seq<Answer>)
    requires |behind| == start + count && start + start + count <= |u.range|
    requires Answered(u, start + start, behind[start..])
    requires forall i :: 0 <= i < |behind| ==> behind[i] == AnswerOf(u, start + i)
    requires forall k: nat :: start <= k < start + count ==> u.TakenPage(k)
    ensures Visits(u, start, count, behind[start..])
  {
    hide Answered, AnswerOf, Snap.TakenPage;
    var visited := behind[start..];
    forall i | 0 <= i < count
      ensures visited[i] == AnswerOf(u, start + start + i)
    {
      assert visited[i] == behind[start + i] == AnswerOf(u, start + (start + i));
      assert start + (start + i) == start + start + i;
    }
  }

  /** What freeing the range leaves behind: the paging heap with its counters is as before
      exactly when the range has one block or ends with the heap and none of the visited
      free pages answers with its own address; the data heap exactly when the range starts
      at block 0, all its pages are found and none of those counted behind it. */
  lemma WrittenBackIff(s: Snap, u: Snap, start: nat, n: nat, blocks: seq<nat>, was: State, visited: seq<Answer>)
    requires WrittenPass(s, u, start, n, blocks, was) && start < |u.range|
    requires Visits(u, start, BlockCount(u.range, start), visited)
    ensures var count := BlockCount(u.range, start);
            && n <= count
            && (FreeEach(u.table, Freed(visited)) == s.table <==>
                start == 0 && AllFoundIn(s, 0, n) && NoneFoundIn(s, n, count - n))
    ensures |MallocStepAsWritten(was, n).table| == |was.table| && start < |was.table|
    ensures FreeStep(Counted(MallocStepAsWritten(was, n), -(Selfs(visited) as int)), start) == was <==>
            (n == 1 || start + n == |s.range|)
            && NoneFreeButFound(s, start + start, BlockCount(u.range, start), start, n)
    ensures start == 0 ==> NoneFreeButFound(s, start + start, BlockCount(u.range, start), start, n)
    ensures forall p: nat :: SelfPage(p, u.PageAt(start + start), visited) <==>
      FreeButFoundPage(s, p, start, BlockCount(u.range, start), n)
  {
    hide *;
    WrittenParts(s, u, start, n, blocks, was);
    WrittenSound(s, u, start, n, blocks, was);
    var count := BlockCount(u.range, start);
    DataBackIff(s, u, start, n, blocks, count, visited);
    SelfsIff(s, u, start, n, blocks, count, visited);
    VisitsCount(u, start, count, visited);
    SameLength(was, n);
    FreeUndoesCountedIff(was, n, Selfs(visited));
  }

  lemma VisitsCount(u: Snap, start: nat, count: nat, visited: seq<Answer>)
    requires Visits(u, start, count, visited)
    ensures Selfs(visited) <= |visited| == count
  {
  }

  lemma SameLength(st: State, n: nat)
    ensures |MallocStepAsWritten(st, n).table| == |st.table|
  {
  }

  // ------------------------------------------------ complete chains, one pass

  lemma CompleteCount(t: seq<BlockEntry>, s: nat, n: nat)
    requires n >= 1 && s + n <= |t| && AllLegal(t)
    ensures ChainLength(MarkTaken(t, s, n), s) == n == BlockCount(MarkTaken(t, s, n), s)
  {
    ShapeLength(MarkTaken(t, s, n), s, n);
    MarkTakenLegal(t, s, n);
    CountedChain(MarkTaken(t, s, n), s);
  }

  /** A complete chain taken and freed: table and counters are as before. */
  lemma MallocThenFree(st: State, n: nat)
    requires AllLegal(st.table) && st.used < WORD && st.free < WORD && FirstFit(st.table, n) >= 0
    ensures FirstFit(st.table, n) < |st.table|
    ensures FreeStep(MallocStep(st, n), FirstFit(st.table, n)) == st
  {
    hide Wrap, MarkTaken, MarkFree, ChainLength;
    var t, s := st.table, FirstFit(st.table, n);
    CompleteCount(t, s, n);
    assert MarkFree(MarkTaken(t, s, n), s, n) == t;
    WrapAdd(st.used + n, -(n as int));
    WrapAdd(st.free - n, n);
  }

  lemma CompletePass(s: Snap, u: Snap, start: nat, n: nat, blocks: seq<nat>, was: State, after: State)
    requires Passed(s, u, start, n, blocks) && AllLegal(s.range) && start == FirstFit(s.range, n)
    requires was.table == s.range && was.used < WORD && was.free < WORD
    requires after == MallocStep(was, n) && after.table == u.range
    ensures start < |u.range| && ChainLength(u.range, start) == n == BlockCount(u.range, start)
    ensures FreeStep(after, start) == was
  {
    hide Passed, Wrap, MarkTaken, MarkFree, ChainLength, BlockCount;
    PassedParts(s, u, start, n, blocks);
    MallocThenFree(was, n);
    CompleteCount(was.table, start, n);
  }

  lemma ViewedParts(s: Snap, data: State, range: State)
    requires Viewed(s, data, range)
    ensures data.table == s.table && range.table == s.range && range.used < WORD && range.free < WORD
  {
  }

  lemma ChosenStep(complete: bool, st: State, n: nat)
    ensures MallocStepBy(complete, st, n) == if complete then MallocStep(st, n) else MallocStepAsWritten(st, n)
  {
  }

  // --------------------------------------------------------- complete chains

  lemma AllElements(before: seq<BlockEntry>, blocks: seq<nat>)
    requires forall i :: 0 <= i < |blocks| ==> blocks[i] < |before| && before[blocks[i]] == FREE
    ensures forall b :: b in Elements(blocks) ==> b < |before| && before[b] == FREE
  {
    forall b | b in Elements(blocks)
      ensures b < |before| && before[b] == FREE
    {
      var i := ElementOf(blocks, b);
    }
  }

  /** Single blocks taken on their own keep complete chains. */
  lemma TakenWhole(before: seq<BlockEntry>, after: seq<BlockEntry>, blocks: seq<nat>, n: nat)
    requires WellFormed(before) && Backed(before, after, blocks, n)
    ensures WellFormed(after)
  {
    hide Taken, First, HasNext, ChainEntry, Elements;
    FreeFacts();
    AllElements(before, blocks);
    assert SINGLE == ChainEntry(true, false);
    forall i | 0 <= i < |after|
      ensures EntryOk(after, i)
    {
      assert EntryOk(before, i);
      if i + 1 < |after| { assert EntryOk(before, i + 1); }
      if i > 0 { assert EntryOk(before, i - 1); }
    }
  }

  /** So does freeing them. */
  lemma FreedWhole(t: seq<BlockEntry>, freed: set<nat>)
    requires WellFormed(t) && forall b :: b in freed ==> b < |t| && t[b] == SINGLE
    ensures WellFormed(FreeEach(t, freed))
  {
    hide Taken, First, HasNext, ChainEntry;
    FreeFacts();
    assert SINGLE == ChainEntry(true, false);
    var u := FreeEach(t, freed);
    forall i | 0 <= i < |u|
      ensures EntryOk(u, i)
    {
      assert EntryOk(t, i);
      if i + 1 < |u| { assert EntryOk(t, i + 1); }
      if i > 0 { assert EntryOk(t, i - 1); }
    }
  }
}
