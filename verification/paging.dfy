/** Four-level page tables (memory/paging/paging.c), walked as the processor does
    (Intel SDM Volume 3A, sections 4.5 and 4.6).

    Tables live at page-aligned addresses; the ghost map `owner` gives each of them the
    indices that lead to it from the root, which is what makes them a tree. */
module PageTable {
  import opened Common

  const ENTRIES: nat := 512
  const PAGE_SIZE: nat := 4096
  const PAGES: nat := 0x10_0000_0000
  const FRAMES: nat := 0x100_0000_0000

  /** A 64-bit entry; `rest` stands for the bits that paging.c never sets. */
  datatype Entry = Entry(present: bool, write: bool, user: bool, noExecute: bool, rest: nat, frame: nat)

  const NULL_ENTRY: Entry := Entry(false, false, false, false, 0, 0)

  /** The address in the entry's frame field, shifted back. */
  function Target(e: Entry): nat { e.frame * PAGE_SIZE }

  type Table = seq<Entry>
  type Memory = map<nat, Table>

  datatype Translation = Fault | Maps(frame: nat, write: bool, user: bool, noExecute: bool)

  /** The processor's walk from the table at `a`; the access rights so far are ANDed,
      execute-disable is ORed. */
  function Walk(mem: Memory, a: nat, path: seq<nat>, write: bool, user: bool, noExecute: bool): Translation
    decreases |path|
  {
    if path == [] || a !in mem || path[0] >= |mem[a]| || !mem[a][path[0]].present then Fault
    else
      var e := mem[a][path[0]];
      if |path| == 1 then Maps(e.frame, write && e.write, user && e.user, noExecute || e.noExecute)
      else Walk(mem, Target(e), path[1..], write && e.write, user && e.user, noExecute || e.noExecute)
  }

  /** The last-level entry at the end of a path, NULL_ENTRY when a table is missing. */
  function Leaf(mem: Memory, a: nat, path: seq<nat>): Entry
    decreases |path|
  {
    if path == [] || a !in mem || path[0] >= |mem[a]| || mem[a][path[0]] == NULL_ENTRY then NULL_ENTRY
    else if |path| == 1 then mem[a][path[0]]
    else Leaf(mem, Target(mem[a][path[0]]), path[1..])
  }

  /** How many tables are missing on the way to the last-level entry. */
  function Missing(mem: Memory, a: nat, path: seq<nat>): nat
    decreases |path|
  {
    if |path| <= 1 then 0
    else if a !in mem || path[0] >= |mem[a]| || mem[a][path[0]] == NULL_ENTRY then |path| - 1
    else Missing(mem, Target(mem[a][path[0]]), path[1..])
  }

  /** The last table on a path that exists. */
  function Reach(mem: Memory, a: nat, path: seq<nat>): nat
    decreases |path|
  {
    if |path| <= 1 || a !in mem || path[0] >= |mem[a]| || mem[a][path[0]] == NULL_ENTRY then a
    else Reach(mem, Target(mem[a][path[0]]), path[1..])
  }

  function Translated(leaf: Entry): Translation {
    if leaf.present then Maps(leaf.frame, leaf.write, leaf.user, leaf.noExecute) else Fault
  }

  predicate Permissive(e: Entry) { e.present && e.write && e.user && !e.noExecute }

  /** The tables in `owner` form a tree below the root without sharing, and its inner
      entries are permissive. */
  ghost predicate Tree(mem: Memory, owner: map<nat, seq<nat>>) {
    && (forall a :: a in owner ==> a in mem && |mem[a]| == ENTRIES && |owner[a]| <= 3)
    && (forall a, k :: a in owner && |owner[a]| < 3 && 0 <= k < ENTRIES && mem[a][k] != NULL_ENTRY ==>
          Permissive(mem[a][k]) && Target(mem[a][k]) in owner && owner[Target(mem[a][k])] == owner[a] + [k])
  }

  predicate Indices(path: seq<nat>) { forall i :: 0 <= i < |path| ==> path[i] < ENTRIES }

  function EmptyTable(): (t: Table)
    ensures |t| == ENTRIES && forall k :: 0 <= k < ENTRIES ==> t[k] == NULL_ENTRY
  {
    seq(ENTRIES, _ => NULL_ENTRY)
  }

  /** The memory after the entry `k` of the table at `a` is written. */
  function Set(mem: Memory, a: nat, k: nat, e: Entry): Memory
    requires a in mem && k < |mem[a]|
  {
    mem[a := mem[a][k := e]]
  }

  function Inner(table: nat): Entry { Entry(true, true, true, false, 0, (table / PAGE_SIZE) % FRAMES) }

  // ------------------------------------------------------------- the walk

  /** An inner entry leads to the table one index further down. */
  lemma ChildOwned(mem: Memory, owner: map<nat, seq<nat>>, a: nat, path: seq<nat>)
    requires Tree(mem, owner) && a in owner && Indices(path) && |path| > 1 && |path| + |owner[a]| == 4
    requires mem[a][path[0]] != NULL_ENTRY
    ensures var child := Target(mem[a][path[0]]);
            && Permissive(mem[a][path[0]]) && child in owner
            && owner[child] + path[1..] == owner[a] + path && Indices(path[1..])
            && |path[1..]| + |owner[child]| == 4
  {
    assert path[0] < ENTRIES;
    assert path == [path[0]] + path[1..];
    forall i | 0 <= i < |path[1..]| ensures path[1..][i] < ENTRIES {
      assert path[1..][i] == path[i + 1];
    }
  }

  /** In a tree the processor finds exactly the leaf, with exactly the leaf's rights. */
  lemma {:induction false} WalkIsLeaf(mem: Memory, owner: map<nat, seq<nat>>, a: nat, path: seq<nat>)
    requires Tree(mem, owner) && a in owner && Indices(path) && |path| + |owner[a]| == 4
    ensures Walk(mem, a, path, true, true, false) == Translated(Leaf(mem, a, path))
    decreases |path|
  {
    var e := mem[a][path[0]];
    if |path| > 1 && e != NULL_ENTRY {
      ChildOwned(mem, owner, a, path);
      WalkIsLeaf(mem, owner, Target(e), path[1..]);
    }
  }

  // ------------------------------------------------- changes to the tables

  ghost predicate FreshTable(mem: Memory, owner: map<nat, seq<nat>>, table: nat) {
    table !in owner && table % PAGE_SIZE == 0 && table / PAGE_SIZE < FRAMES
  }

  /** Hanging a fresh zeroed table below a null entry keeps the tree, changes no leaf
      and supplies one missing table on the paths through it. */
  lemma GrowTree(mem: Memory, owner: map<nat, seq<nat>>, a: nat, k: nat, table: nat)
    requires Tree(mem, owner) && a in owner && |owner[a]| < 3 && k < ENTRIES && mem[a][k] == NULL_ENTRY
    requires FreshTable(mem, owner, table)
    ensures Target(Inner(table)) == table
    ensures var mem' := Set(mem[table := EmptyTable()], a, k, Inner(table));
            Tree(mem', owner[table := owner[a] + [k]])
  {
    var mem' := Set(mem[table := EmptyTable()], a, k, Inner(table));
    var owner' := owner[table := owner[a] + [k]];
    forall b, j | b in owner' && |owner'[b]| < 3 && 0 <= j < ENTRIES && mem'[b][j] != NULL_ENTRY
      ensures Permissive(mem'[b][j]) && Target(mem'[b][j]) in owner' && owner'[Target(mem'[b][j])] == owner'[b] + [j]
    {
      if b != table && !(b == a && j == k) {
        assert mem[b][j] == mem'[b][j];
        assert Target(mem[b][j]) in owner;
      }
    }
  }

  lemma {:induction false} GrowLeaf(mem: Memory, owner: map<nat, seq<nat>>, a: nat, k: nat, table: nat, b: nat,
      path: seq<nat>)
    requires Tree(mem, owner) && a in owner && |owner[a]| < 3 && k < ENTRIES && mem[a][k] == NULL_ENTRY
    requires FreshTable(mem, owner, table)
    requires b in owner && Indices(path) && |path| + |owner[b]| == 4
    ensures var mem' := Set(mem[table := EmptyTable()], a, k, Inner(table));
            && Leaf(mem', b, path) == Leaf(mem, b, path)
            && Missing(mem', b, path) <= Missing(mem, b, path)
    decreases |path|
  {
    var mem' := Set(mem[table := EmptyTable()], a, k, Inner(table));
    if |path| > 1 {
      var e := mem[b][path[0]];
      if b == a && path[0] == k {
        assert mem'[b][path[0]] == Inner(table) && Target(Inner(table)) == table;
        assert mem'[table] == EmptyTable() by { assert table != a; }
        assert path[1..][0] < ENTRIES;
      } else if e != NULL_ENTRY {
        assert mem'[b][path[0]] == e;
        ChildOwned(mem, owner, b, path);
        GrowLeaf(mem, owner, a, k, table, Target(e), path[1..]);
      }
    }
  }

  /** Writing a last-level entry keeps the tree and changes that leaf only. */
  lemma SetLeafTree(mem: Memory, owner: map<nat, seq<nat>>, pt: nat, k: nat, e: Entry)
    requires Tree(mem, owner) && pt in owner && |owner[pt]| == 3 && k < ENTRIES
    ensures Tree(Set(mem, pt, k, e), owner)
  {
    var mem' := Set(mem, pt, k, e);
    forall b, j | b in owner && |owner[b]| < 3 && 0 <= j < ENTRIES && mem'[b][j] != NULL_ENTRY
      ensures Permissive(mem'[b][j]) && Target(mem'[b][j]) in owner && owner[Target(mem'[b][j])] == owner[b] + [j]
    {
      assert mem'[b] == mem[b];
    }
  }

  lemma {:induction false} SetLeafOther(mem: Memory, owner: map<nat, seq<nat>>, pt: nat, k: nat, e: Entry, b: nat,
      path: seq<nat>)
    requires Tree(mem, owner) && pt in owner && |owner[pt]| == 3 && k < ENTRIES
    requires b in owner && Indices(path) && |path| + |owner[b]| == 4
    requires owner[b] + path != owner[pt] + [k]
    ensures Leaf(Set(mem, pt, k, e), b, path) == Leaf(mem, b, path)
    ensures Missing(Set(mem, pt, k, e), b, path) == Missing(mem, b, path)
    decreases |path|
  {
    if |path| > 1 {
      var f := mem[b][path[0]];
      if f != NULL_ENTRY {
        ChildOwned(mem, owner, b, path);
        SetLeafOther(mem, owner, pt, k, e, Target(f), path[1..]);
      }
    } else {
      assert path == [path[0]];
    }
  }

  lemma {:induction false} SetLeafHere(mem: Memory, owner: map<nat, seq<nat>>, pt: nat, k: nat, e: Entry, b: nat,
      path: seq<nat>)
    requires Tree(mem, owner) && pt in owner && |owner[pt]| == 3 && k < ENTRIES
    requires b in owner && Indices(path) && 1 <= |path| && |path| + |owner[b]| == 4
    requires Missing(mem, b, path) == 0 && Reach(mem, b, path) == pt && path[|path| - 1] == k
    ensures Leaf(mem, b, path) == mem[pt][k]
    ensures Leaf(Set(mem, pt, k, e), b, path) == e
    decreases |path|
  {
    if |path| > 1 {
      ChildOwned(mem, owner, b, path);
      SetLeafHere(mem, owner, pt, k, e, Target(mem[b][path[0]]), path[1..]);
    }
  }

  lemma {:induction false} MissingFrame(mem: Memory, owner: map<nat, seq<nat>>, pt: nat, k: nat, e: Entry, b: nat,
      path: seq<nat>)
    requires Tree(mem, owner) && pt in owner && |owner[pt]| == 3 && k < ENTRIES
    requires b in owner && Indices(path) && |path| + |owner[b]| == 4
    ensures Missing(Set(mem, pt, k, e), b, path) == Missing(mem, b, path)
    decreases |path|
  {
    if |path| > 1 && mem[b][path[0]] != NULL_ENTRY {
      ChildOwned(mem, owner, b, path);
      MissingFrame(mem, owner, pt, k, e, Target(mem[b][path[0]]), path[1..]);
    }
  }

  // -------------------------------------------------- addresses and pages

  /** The 48-bit page of a 64-bit virtual address. */
  function Page(va: nat): (p: nat)
    ensures p < PAGES
  {
    (va / PAGE_SIZE) % PAGES
  }

  /** The four table indices of a page. */
  function Path(page: nat): (path: seq<nat>)
    ensures |path| == 4 && Indices(path)
  {
    [(page / 0x800_0000) % 512, (page / 0x4_0000) % 512, (page / 0x200) % 512, page % 512]
  }

  /** The indices that paging.c:160-163 extracts with shifts and masks. */
  lemma ShiftsArePath(va: nat)
    ensures Path(Page(va)) ==
      [(va / 0x80_0000_0000) % 512, (va / 0x4000_0000) % 512, (va / 0x20_0000) % 512, (va / 0x1000) % 512]
  {
    var q := va / PAGE_SIZE;
    DivDiv(va, PAGE_SIZE, 0x800_0000);
    DivDiv(va, PAGE_SIZE, 0x4_0000);
    DivDiv(va, PAGE_SIZE, 0x200);
    Digit(q, 0x800_0000, 1);
    Digit(q, 0x4_0000, 0x200);
    Digit(q, 0x200, 0x4_0000);
    Digit(q, 1, 0x800_0000);
  }

  lemma DivDiv(x: nat, b: nat, c: nat)
    requires b > 0 && c > 0
    ensures b * c > 0 && (x / b) / c == x / (b * c)
  {
    var q, r := x / b, x % b;
    var s, t := q / c, q % c;
    assert x == b * q + r;
    assert q == c * s + t;
    Regroup(b, c, s, t, r);
    var bc := b * c;
    assert x == bc * s + (b * t + r);
    Quotient(x, bc, s, b * t + r);
  }

  lemma Regroup(b: nat, c: nat, s: nat, t: nat, r: nat)
    requires t < c && r < b
    ensures b * c > 0 && b * (c * s + t) + r == b * c * s + (b * t + r) && b * t + r < b * c
  {
    assert b * (c * s + t) == b * (c * s) + b * t;
    assert b * (c * s) == b * c * s;
    assert b * t <= b * (c - 1);
    assert b * (c - 1) == b * c - b;
  }

  /** A base-512 digit of `q` is not changed by dropping higher digits. */
  lemma Digit(q: nat, m: nat, n: nat)
    requires m > 0 && n > 0 && m * n * 512 == PAGES
    ensures ((q % PAGES) / m) % 512 == (q / m) % 512
  {
    var h, p := q / PAGES, q % PAGES;
    var nh, s := n * h, p / m;
    Shifted(m, n, h);
    assert q == PAGES * h + p;
    assert p == m * s + p % m;
    Distribute(m, 512 * nh, s);
    Quotient(q, m, 512 * nh + s, p % m);
    Quotient(512 * nh + s, 512, nh + s / 512, s % 512);
  }

  lemma Shifted(m: nat, n: nat, h: nat)
    ensures m * (512 * (n * h)) == m * n * 512 * h
  {
  }

  lemma Distribute(m: nat, a: nat, b: nat)
    ensures m * (a + b) == m * a + m * b
  {
  }

  lemma PathInjective(p: nat, q: nat)
    requires p < PAGES && q < PAGES && Path(p) == Path(q)
    ensures p == q
  {
    Unpath(p);
    Unpath(q);
  }

  lemma Unpath(p: nat)
    requires p < PAGES
    ensures p == Path(p)[0] * 0x800_0000 + Path(p)[1] * 0x4_0000 + Path(p)[2] * 0x200 + Path(p)[3]
  {
    assert p / 0x200 == (p / 0x4_0000) * 512 + (p / 0x200) % 512;
    assert p / 0x4_0000 == (p / 0x800_0000) * 512 + (p / 0x4_0000) % 512;
  }
}
