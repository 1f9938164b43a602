/** Where a FAT16 volume keeps its table copies, its root directory and its clusters
    (fs/fat/fat16.c), and what the bytes of the disk mean. */
module FatLayout {
  import opened Common
  import opened Streamer
  import opened FatTable

  const CLUSTER_LIMIT: nat := 0xFFF0

  /** The fields of the header that the code uses. `limit` is no field: the clusters below
      it lie on the disk as a whole, with a sector behind them, and have a table entry. */
  datatype Geometry = Geometry(reserved: nat, copies: nat, fatSectors: nat, rootEntries: nat,
                               perCluster: nat, totalSectors: nat, limit: nat)
  {
    function Entries(): nat { fatSectors * 256 }
    function RootStart(): nat { copies * fatSectors + reserved }
    function RootSectors(): nat { rootEntries * 32 / SECTOR + if rootEntries * 32 % SECTOR != 0 then 1 else 0 }
    function DataStart(): nat { RootStart() + RootSectors() }
    function ClusterSize(): nat { perCluster * SECTOR }

    /** The clusters that fat16_find_free_cluster looks at: reserved sectors, tables and
        root directory count as data. */
    function Scanned(): nat
      requires perCluster > 0
    {
      totalSectors / perCluster
    }

    /** Where the clusters end that are on the volume and that the scan can give out. */
    function Usable(): (u: nat)
      ensures u <= limit
    {
      if perCluster == 0 then 0 else Min(limit, Scanned())
    }

    /** fat16_cluster_to_sector, in bytes. */
    function ClusterPos(k: nat): nat
      requires k >= 2
    {
      (DataStart() + (k - 2) * perCluster) * SECTOR
    }

    function EntryPos(copy: nat, k: nat): nat { reserved * SECTOR + k * 2 + copy * fatSectors * SECTOR }

    /** The volume fits a disk of so many bytes, whose positions are `int`s; the scan reads
        on the disk. */
    predicate Fits(length: nat) {
      && copies > 0 && perCluster > 0 && length % SECTOR == 0 && length < INT_LIMIT
      && 2 <= limit <= Entries() && limit <= CLUSTER_LIMIT
      && ClusterPos(limit) < length <= ClusterPos(CLUSTER_LIMIT)
      && EntryPos(0, Scanned()) < length
    }
  }

  lemma Steps(a: nat, b: nat, m: nat)
    requires a < b
    ensures a * m + m <= b * m
  {
    assert (a + 1) * m == a * m + m;
    assert (a + 1) * m <= b * m;
  }

  lemma EntriesApart(g: Geometry, c: nat, k: nat, c': nat, k': nat)
    requires c < c' && k < g.Entries() && k' < g.Entries()
    ensures g.EntryPos(c, k) + 2 <= g.EntryPos(c', k')
  {
    Steps(c, c', g.fatSectors);
  }

  lemma EntryInTable(g: Geometry, c: nat, k: nat)
    requires c < g.copies && k < g.Entries()
    ensures g.EntryPos(c, k) + 2 <= g.RootStart() * SECTOR <= g.DataStart() * SECTOR
  {
    Steps(c, g.copies, g.fatSectors);
  }

  lemma ClustersApart(g: Geometry, k: nat, j: nat)
    requires 2 <= k < j
    ensures g.DataStart() * SECTOR <= g.ClusterPos(k) && g.ClusterPos(k) + g.ClusterSize() <= g.ClusterPos(j)
  {
    hide Geometry.DataStart;
    Steps(k - 2, j - 2, g.perCluster);
  }

  lemma ClusterInside(g: Geometry, length: nat, k: nat)
    requires g.Fits(length) && 2 <= k < g.limit
    ensures g.DataStart() * SECTOR <= g.ClusterPos(k) && g.ClusterPos(k) + g.ClusterSize() < length
    ensures g.DataStart() * SECTOR < length
  {
    ClustersApart(g, k, g.limit);
  }

  lemma TableInside(g: Geometry, length: nat)
    requires g.Fits(length)
    ensures g.RootStart() * SECTOR + g.rootEntries * 32 <= g.DataStart() * SECTOR < length
  {
    RoomForRoot(g.rootEntries * 32);
    if g.limit > 2 {
      ClustersApart(g, 2, g.limit);
    } else {
      assert g.ClusterPos(2) == g.DataStart() * SECTOR;
    }
    hide Geometry.RootStart, Geometry.ClusterPos;
  }

  lemma RoomForRoot(n: nat)
    ensures n <= (n / SECTOR + if n % SECTOR != 0 then 1 else 0) * SECTOR
  {
  }

  // ---------------------------------------------------------------- views

  /** A 16-bit little-endian number. */
  function Word(d: seq<Byte>, p: nat): (r: nat)
    requires p + 2 <= |d|
    ensures r <= 0xFFFF
  {
    var low: nat, high: nat := d[p], d[p + 1];
    low + 256 * high
  }

  function WordBytes(v: nat): (r: seq<Byte>)
    requires v <= 0xFFFF
    ensures |r| == 2 && Word(r, 0) == v
  {
    [v % 256, v / 256]
  }

  function Entry(g: Geometry, d: seq<Byte>, copy: nat, k: nat): (r: nat)
    requires g.Fits(|d|) && copy < g.copies && k < g.Entries()
    ensures r <= 0xFFFF
  {
    EntryInTable(g, copy, k);
    TableInside(g, |d|);
    Word(d, g.EntryPos(copy, k))
  }

  function Table(g: Geometry, d: seq<Byte>): (r: Fat)
    requires g.Fits(|d|)
    ensures |r| == g.Entries()
    ensures forall k :: 0 <= k < |r| ==> r[k] == Entry(g, d, 0, k)
  {
    seq(g.Entries(), k requires 0 <= k < g.Entries() => Entry(g, d, 0, k))
  }

  /** All copies of the table agree. */
  ghost predicate Mirrored(g: Geometry, d: seq<Byte>)
    requires g.Fits(|d|)
  {
    forall c: nat, k: nat :: c < g.copies && k < g.Entries() ==> Entry(g, d, c, k) == Entry(g, d, 0, k)
  }

  function ClusterBytes(g: Geometry, d: seq<Byte>, k: nat): (r: seq<Byte>)
    requires g.Fits(|d|) && k < g.limit
    ensures k >= 2 ==> |r| == g.ClusterSize()
  {
    if k < 2 then [] else
      ClusterInside(g, |d|, k);
      d[g.ClusterPos(k)..g.ClusterPos(k) + g.ClusterSize()]
  }

  function Clusters(g: Geometry, d: seq<Byte>): (r: seq<seq<Byte>>)
    requires g.Fits(|d|)
    ensures |r| == g.limit && forall k :: 0 <= k < g.limit ==> r[k] == ClusterBytes(g, d, k)
  {
    seq(g.limit, k requires 0 <= k < g.limit => ClusterBytes(g, d, k))
  }

  function Root(g: Geometry, d: seq<Byte>): (r: seq<Byte>)
    requires g.Fits(|d|)
    ensures |r| == g.rootEntries * 32
  {
    TableInside(g, |d|);
    d[g.RootStart() * SECTOR..g.RootStart() * SECTOR + g.rootEntries * 32]
  }

  /** What a volume holds. */
  datatype Volume = Volume(fat: Fat, data: seq<seq<Byte>>, root: seq<Byte>)

  ghost function View(g: Geometry, d: seq<Byte>): Volume
    requires g.Fits(|d|)
  {
    Volume(Table(g, d), Clusters(g, d), Root(g, d))
  }

  // ------------------------------------------------------ effects of writes

  lemma SpliceAway(d: seq<Byte>, p: nat, s: seq<Byte>, q: nat, n: nat)
    requires p + |s| <= |d| && q + n <= |d| && (q + n <= p || p + |s| <= q)
    ensures Splice(d, p, s)[q..q + n] == d[q..q + n]
  {
  }

  lemma SpliceWithin(d: seq<Byte>, p: nat, s: seq<Byte>, q: nat, n: nat)
    requires q <= p && p + |s| <= q + n <= |d|
    ensures Splice(d, p, s)[q..q + n] == Splice(d[q..q + n], p - q, s)
  {
  }

  /** Writing one entry in one copy changes nothing else. */
  lemma EntryWritten(g: Geometry, d: seq<Byte>, c: nat, k: nat, v: nat)
    requires g.Fits(|d|) && c < g.copies && k < g.Entries() && v <= 0xFFFF
    ensures g.EntryPos(c, k) + 2 < |d|
    ensures var now := Splice(d, g.EntryPos(c, k), WordBytes(v));
            && (forall c': nat, k': nat :: c' < g.copies && k' < g.Entries() ==>
                  Entry(g, now, c', k') == if c' == c && k' == k then v else Entry(g, d, c', k'))
            && Clusters(g, now) == Clusters(g, d) && Root(g, now) == Root(g, d)
  {
    EntryInTable(g, c, k);
    TableInside(g, |d|);
    var p, s := g.EntryPos(c, k), WordBytes(v);
    var now := Splice(d, p, s);
    forall c': nat, k': nat | c' < g.copies && k' < g.Entries()
      ensures Entry(g, now, c', k') == if c' == c && k' == k then v else Entry(g, d, c', k')
    {
      EntryKept(g, d, c, k, v, c', k');
    }
    forall j | 0 <= j < g.limit ensures ClusterBytes(g, now, j) == ClusterBytes(g, d, j) {
      if j >= 2 {
        ClusterInside(g, |d|, j);
        SpliceAway(d, p, s, g.ClusterPos(j), g.ClusterSize());
      }
    }
    SpliceAway(d, p, s, g.RootStart() * SECTOR, g.rootEntries * 32);
  }

  lemma EntryKept(g: Geometry, d: seq<Byte>, c: nat, k: nat, v: nat, c': nat, k': nat)
    requires g.Fits(|d|) && c < g.copies && k < g.Entries() && v <= 0xFFFF && c' < g.copies && k' < g.Entries()
    requires g.EntryPos(c, k) + 2 < |d|
    ensures Entry(g, Splice(d, g.EntryPos(c, k), WordBytes(v)), c', k') == if c' == c && k' == k then v
      else Entry(g, d, c', k')
  {
    EntryInTable(g, c', k');
    TableInside(g, |d|);
    if c < c' {
      EntriesApart(g, c, k, c', k');
    } else if c' < c {
      EntriesApart(g, c', k', c, k);
    }
  }

  /** A write behind the tables leaves every entry. */
  lemma EntriesKept(g: Geometry, d: seq<Byte>, p: nat, s: seq<Byte>)
    requires g.Fits(|d|) && g.RootStart() * SECTOR <= p && p + |s| <= |d|
    ensures forall c: nat, j: nat :: c < g.copies && j < g.Entries() ==>
      Entry(g, Splice(d, p, s), c, j) == Entry(g, d, c, j)
    ensures Table(g, Splice(d, p, s)) == Table(g, d)
  {
    forall c: nat, j: nat | c < g.copies && j < g.Entries()
      ensures Entry(g, Splice(d, p, s), c, j) == Entry(g, d, c, j) {
      EntryInTable(g, c, j);
    }
  }

  lemma ClusterKept(g: Geometry, d: seq<Byte>, k: nat, off: nat, s: seq<Byte>, j: nat)
    requires g.Fits(|d|) && 2 <= k < g.limit && off + |s| <= g.ClusterSize() && j < g.limit
    requires g.ClusterPos(k) + off + |s| < |d|
    ensures ClusterBytes(g, Splice(d, g.ClusterPos(k) + off, s), j) ==
            if j == k then Splice(ClusterBytes(g, d, k), off, s) else ClusterBytes(g, d, j)
  {
    hide Splice, Geometry.Fits, Geometry.ClusterPos;
    var base, p := g.ClusterPos(k), g.ClusterPos(k) + off;
    ClusterInside(g, |d|, k);
    if j == k {
      assert p - base == off;
      SpliceWithin(d, p, s, base, g.ClusterSize());
    } else if j >= 2 {
      ClusterInside(g, |d|, j);
      if j < k { ClustersApart(g, j, k); } else { ClustersApart(g, k, j); }
      SpliceAway(d, p, s, g.ClusterPos(j), g.ClusterSize());
    }
  }

  /** Writing inside one cluster changes nothing else. */
  lemma ClusterWritten(g: Geometry, d: seq<Byte>, k: nat, off: nat, s: seq<Byte>)
    requires g.Fits(|d|) && 2 <= k < g.limit && off + |s| <= g.ClusterSize()
    ensures g.ClusterPos(k) + off + |s| < |d|
    ensures var now := Splice(d, g.ClusterPos(k) + off, s);
            && (forall c: nat, j: nat :: c < g.copies && j < g.Entries() ==> Entry(g, now, c, j) == Entry(g, d, c, j))
            && View(g, now) == View(g, d).(data := Clusters(g, d)[k := Splice(ClusterBytes(g, d, k), off, s)])
  {
    hide Splice, Entry, Geometry.Fits;
    ClusterInside(g, |d|, k);
    TableInside(g, |d|);
    var base, p := g.ClusterPos(k), g.ClusterPos(k) + off;
    var now := Splice(d, p, s);
    EntriesKept(g, d, p, s);
    var data := Clusters(g, d)[k := Splice(ClusterBytes(g, d, k), off, s)];
    hide ClusterBytes;
    forall j | 0 <= j < g.limit ensures ClusterBytes(g, now, j) == data[j] {
      ClusterKept(g, d, k, off, s, j);
    }
    SpliceAway(d, p, s, g.RootStart() * SECTOR, g.rootEntries * 32);
    assert Clusters(g, now) == data;
  }

  /** Writing inside the root directory changes nothing else. */
  lemma RootWritten(g: Geometry, d: seq<Byte>, off: nat, s: seq<Byte>)
    requires g.Fits(|d|) && off + |s| <= g.rootEntries * 32
    ensures g.RootStart() * SECTOR + off + |s| < |d|
    ensures var now := Splice(d, g.RootStart() * SECTOR + off, s);
            && (forall c: nat, j: nat :: c < g.copies && j < g.Entries() ==> Entry(g, now, c, j) == Entry(g, d, c, j))
            && View(g, now) == View(g, d).(root := Splice(Root(g, d), off, s))
  {
    hide Splice, Entry, Geometry.Fits;
    TableInside(g, |d|);
    var base, p := g.RootStart() * SECTOR, g.RootStart() * SECTOR + off;
    var now := Splice(d, p, s);
    EntriesKept(g, d, p, s);
    forall j | 0 <= j < g.limit ensures ClusterBytes(g, now, j) == ClusterBytes(g, d, j) {
      if j >= 2 {
        ClusterInside(g, |d|, j);
        SpliceAway(d, p, s, g.ClusterPos(j), g.ClusterSize());
      }
    }
    assert p - base == off;
    SpliceWithin(d, p, s, base, g.rootEntries * 32);
    assert Clusters(g, now) == Clusters(g, d);
  }
}
