/** Finding, linking, freeing and following clusters on a volume (fs/fat/fat16.c). */
module FatChains {
  import opened Common
  import opened Streamer
  import opened FatTable
  import opened FatLayout
  import opened FatVolume

  lemma EntryOnDisk(fs: FatDisk, k: nat)
    requires fs.Valid() && (k < fs.g.Scanned() || k < fs.g.limit)
    ensures fs.g.EntryPos(0, k) + 2 < fs.disk.data.Length
  {
    if k < fs.g.limit {
      EntryInTable(fs.g, 0, k);
      TableInside(fs.g, fs.disk.data.Length);
    }
  }

  lemma LimitFits(fs: FatDisk)
    requires fs.Valid()
    ensures fs.g.Fits(fs.disk.data.Length)
    ensures fs.g.limit <= fs.g.Entries() && 2 <= fs.g.limit <= CLUSTER_LIMIT
    ensures |fs.Now().fat| == fs.g.Entries() && fs.g.perCluster > 0 && fs.g.ClusterSize() > 0
    ensures fs.g.Usable() == Min(fs.g.limit, fs.g.Scanned())
  {
  }

  /** The entry reads 0 where the scan looks for it. */
  ghost predicate LooksFree(fs: FatDisk, k: nat)
    reads fs.disk.data
  {
    fs.g.EntryPos(0, k) + 2 <= fs.disk.data.Length && fs.Raw(k) == 0
  }

  /** fat16_find_free_cluster: the least entry that reads 0 among all that the scan takes
      for clusters. It is a cluster of the volume exactly when one is free below the end of
      the scan. */
  method FindFreeCluster(fs: FatDisk) returns (cluster: int)
    requires fs.Valid()
    modifies fs.tables
    ensures cluster == -ENOMEM || (2 <= cluster < fs.g.Scanned() && LooksFree(fs, cluster))
    ensures forall k: nat :: 2 <= k < (if cluster == -ENOMEM then fs.g.Scanned() else cluster) ==> !LooksFree(fs, k)
    ensures 2 <= cluster < fs.g.limit <==> Free(fs.Now().fat, fs.g.Usable()) != {}
    ensures 2 <= cluster < fs.g.limit ==> cluster == LeastFree(fs.Now().fat, 2)
  {
    hide FatDisk.Valid, FatDisk.Raw, LooksFree, LeastFree;
    LimitFits(fs);
    var total := fs.g.totalSectors / fs.g.perCluster;
    cluster := 2;
    while cluster < total
      invariant 2 <= cluster
      invariant forall k: nat :: 2 <= k < cluster && k < total ==> !LooksFree(fs, k)
    {
      EntryOnDisk(fs, cluster);
      var entry := fs.GetFatEntry(cluster);
      ReadFree(fs, cluster);
      if entry == 0 {
        FoundIs(fs, cluster);
        return;
      }
      cluster := cluster + 1;
    }
    FoundIs(fs, total);
    return -ENOMEM;
  }

  lemma ReadFree(fs: FatDisk, k: nat)
    requires fs.Valid() && k < fs.g.Scanned()
    ensures fs.g.EntryPos(0, k) + 2 < fs.disk.data.Length && (LooksFree(fs, k) <==> fs.Raw(k) == 0)
    ensures k < fs.g.Entries() ==> (LooksFree(fs, k) <==> fs.Now().fat[k] == 0)
  {
    EntryOnDisk(fs, k);
  }

  lemma FoundIs(fs: FatDisk, cluster: nat)
    requires fs.Valid() && (2 <= cluster || cluster == fs.g.Scanned())
    requires cluster < fs.g.Scanned() ==> LooksFree(fs, cluster)
    requires forall k: nat :: 2 <= k < cluster && k < fs.g.Scanned() ==> !LooksFree(fs, k)
    ensures 2 <= cluster < fs.g.Usable() <==> Free(fs.Now().fat, fs.g.Usable()) != {}
    ensures 2 <= cluster < fs.g.Usable() ==> cluster == LeastFree(fs.Now().fat, 2)
  {
    LimitFits(fs);
    hide FatDisk.Valid, LooksFree, FatDisk.Now;
    forall k | 2 <= k < fs.g.Usable() ensures LooksFree(fs, k) <==> fs.Now().fat[k] == 0 {
      ReadFree(fs, k);
    }
    if 2 <= cluster < fs.g.Usable() {
      assert cluster in Free(fs.Now().fat, fs.g.Usable());
      var least := LeastFree(fs.Now().fat, 2);
      assert !(least < cluster);
    }
  }

  /** The scan misses no cluster of the volume exactly when `Usable` is all of them, and
      only then does it find a free cluster whatever the table says. */
  lemma ScanCompleteIff(g: Geometry)
    requires g.perCluster > 0 && 2 <= g.limit <= g.Entries()
    ensures g.limit <= g.Scanned() || g.limit == 2 <==>
            forall fat: Fat :: |fat| == g.Entries() ==> (Free(fat, g.Usable()) != {} <==> Free(fat, g.limit) != {})
  {
    if g.limit <= g.Scanned() || g.limit == 2 {
      forall fat: Fat | |fat| == g.Entries()
        ensures Free(fat, g.Usable()) != {} <==> Free(fat, g.limit) != {}
      {
        assert Free(fat, g.Usable()) == Free(fat, g.limit);
      }
    } else {
      var fat: Fat := seq(g.Entries(), k => if k == g.limit - 1 then 0 else LAST);
      assert g.limit - 1 in Free(fat, g.limit);
      assert Free(fat, g.Usable()) == {};
    }
  }

  /** On a volume whose clusters are all that fit behind the root directory, the scan
      reaches the last of them exactly when reserved sectors, tables and root directory
      take the room of two clusters. */
  lemma ScanReachesIff(g: Geometry)
    requires g.perCluster > 0 && g.DataStart() <= g.totalSectors
    requires g.limit == 2 + (g.totalSectors - g.DataStart()) / g.perCluster
    ensures g.limit <= g.Scanned() <==>
            g.DataStart() / g.perCluster
            + (if g.totalSectors % g.perCluster < g.DataStart() % g.perCluster then 1 else 0) >= 2
  {
    hide Geometry.DataStart;
    Quotients(g.totalSectors, g.DataStart(), g.perCluster);
  }

  lemma Quotients(t: nat, d: nat, p: nat)
    requires p > 0 && d <= t
    ensures (t - d) / p == t / p - d / p - if t % p < d % p then 1 else 0
  {
    var q := t / p - d / p - if t % p < d % p then 1 else 0;
    var r := t % p - d % p + if t % p < d % p then p else 0;
    assert t - d == p * q + r && 0 <= r < p;
    QuotientIs(t - d, p, q, r);
  }

  lemma QuotientIs(x: int, p: nat, q: int, r: int)
    requires p > 0 && x == p * q + r && 0 <= r < p
    ensures x / p == q
  {
    var e := x / p - q;
    assert p * e == r - x % p;
    assert -(p as int) < p * e < p;
    Smaller(p, e);
  }

  lemma Smaller(p: nat, e: int)
    requires p > 0 && p * e < p && p * e > -(p as int)
    ensures e == 0
  {
  }

  /** One reserved sector, two tables of 32 sectors, 512 root entries, 64 sectors to a
      cluster, 512040 sectors: the data starts at sector 97, and cluster 8000, the last on
      the volume, is never looked at. */
  lemma ScanMissesLast()
    ensures var g := Geometry(1, 2, 32, 512, 64, 512040, 8001);
            && g.DataStart() == 97 && g.limit == 2 + (g.totalSectors - g.DataStart()) / g.perCluster
            && g.limit <= g.Entries() && g.Scanned() == 8000 < g.limit
  {
  }

  /** No surplus entry of the scan reads as free, so the scan ends at the last cluster. */
  ghost predicate Sealed(g: Geometry, fat: Fat)
    requires g.perCluster > 0
  {
    g.Scanned() <= |fat| && forall k :: g.limit <= k < g.Scanned() ==> fat[k] != 0
  }

  /** fat16_allocate_cluster: the first free cluster is put at the end of the chain. Where
      none is free, but an entry that the scan takes for a cluster reads 0, the chain is
      linked to that number, which is no cluster of the volume. */
  method AllocateCluster(fs: FatDisk, previous: int, ghost ch: seq<nat>) returns (cluster: int)
    requires fs.Valid() && Links(fs.Now().fat, fs.g.limit, ch) && previous == (if ch == [] then -1 else ch[|ch| - 1])
    requires fs.g.perCluster > 0
    requires Sealed(fs.g, fs.Now().fat) || Free(fs.Now().fat, fs.g.Usable()) != {}
             || fs.g.Scanned() <= Min(fs.g.Entries(), 0x1_0000)
    modifies fs.tables, fs.disk.data
    ensures fs.Valid()
    ensures cluster < 0 <==> old(Free(fs.Now().fat, fs.g.Usable())) == {} && old(Sealed(fs.g, fs.Now().fat))
    ensures cluster < 0 ==> cluster == -ENOMEM && fs.Now() == old(fs.Now())
    ensures cluster >= 0 ==>
      && cluster == LeastFree(old(fs.Now().fat), 2) < |old(fs.Now().fat)| && cluster <= 0xFFFF
      && (forall i :: 0 <= i < |ch| ==> ch[i] < |old(fs.Now().fat)|)
      && fs.Now() == old(fs.Now()).(fat := Appended(old(fs.Now().fat), ch, cluster))
    ensures cluster >= 0 ==> (cluster < fs.g.limit <==> old(Free(fs.Now().fat, fs.g.Usable())) != {})
    ensures fs.g.limit <= cluster < END && ch != [] ==> !InRange(fs.Now().fat, fs.g.limit)
    ensures old(Free(fs.Now().fat, fs.g.Usable())) != {} ==> cluster in old(Free(fs.Now().fat, fs.g.Usable()))
  {
    hide FatDisk.Valid, FatDisk.Raw, LooksFree, FatDisk.Now, LeastFree, Geometry.Fits, Sealed, Appended, InRange, Links,
         Free;
    LimitFits(fs);
    ghost var fat := fs.Now().fat;
    cluster := FindFreeCluster(fs);
    FoundOrSealed(fs, cluster, ch);
    if cluster < 0 {
      return;
    }
    AppendedIs(fat, fs.g.limit, ch, cluster);
    var res := LinkCluster(fs, previous, cluster, ch);
    if res < 0 {
      return res;
    }
  }

  /** fat16.c:1000-1014. */
  method LinkCluster(fs: FatDisk, previous: int, cluster: nat, ghost ch: seq<nat>) returns (res: int)
    requires fs.Valid() && 2 <= cluster < fs.g.Entries() && cluster <= 0xFFFF
    requires previous == (if ch == [] then -1 else ch[|ch| - 1]) && forall i :: 0 <= i < |ch| ==> ch[i] < fs.g.Entries()
    modifies fs.tables, fs.disk.data
    ensures fs.Valid() && res == 0
    ensures fs.Now() == old(fs.Now()).(fat := Appended(old(fs.Now().fat), ch, cluster))
  {
    hide FatDisk.Valid, FatDisk.Raw, FatDisk.Now, Geometry.Fits;
    LimitFits(fs);
    res := fs.SetFatEntry(cluster, LAST);
    if res < 0 {
      return;
    }
    if previous >= 0 {
      res := fs.SetFatEntry(previous, cluster);
    }
  }

  /** What the search has found on any volume. */
  lemma FoundOrSealed(fs: FatDisk, cluster: int, ch: seq<nat>)
    requires fs.Valid() && fs.g.perCluster > 0 && Links(fs.Now().fat, fs.g.limit, ch)
    requires Sealed(fs.g, fs.Now().fat) || Free(fs.Now().fat, fs.g.Usable()) != {}
             || fs.g.Scanned() <= Min(fs.g.Entries(), 0x1_0000)
    requires cluster == -ENOMEM || (2 <= cluster < fs.g.Scanned() && LooksFree(fs, cluster))
    requires forall k: nat :: 2 <= k < (if cluster == -ENOMEM then fs.g.Scanned() else cluster) ==> !LooksFree(fs, k)
    requires 2 <= cluster < fs.g.limit <==> Free(fs.Now().fat, fs.g.Usable()) != {}
    requires 2 <= cluster < fs.g.limit ==> cluster == LeastFree(fs.Now().fat, 2)
    ensures cluster < 0 <==> Free(fs.Now().fat, fs.g.Usable()) == {} && Sealed(fs.g, fs.Now().fat)
    ensures cluster >= 0 ==> cluster == LeastFree(fs.Now().fat, 2) < |fs.Now().fat| && cluster <= 0xFFFF
    ensures Free(fs.Now().fat, fs.g.Usable()) != {} ==> cluster in Free(fs.Now().fat, fs.g.Usable())
    ensures forall i :: 0 <= i < |ch| ==> ch[i] < |fs.Now().fat|
  {
    LimitFits(fs);
    hide FatDisk.Valid, LooksFree, FatDisk.Now, Geometry.Fits;
    var fat := fs.Now().fat;
    forall k: nat | 2 <= k < fs.g.Scanned() && k < |fat|
      ensures LooksFree(fs, k) <==> fat[k] == 0
    {
      ReadFree(fs, k);
    }
    if cluster >= 0 {
      if cluster >= fs.g.limit {
        assert fs.g.Scanned() <= |fat|;
      }
      var least := LeastFree(fat, 2);
      assert !(least < cluster);
    }
  }

  lemma AppendedIs(fat: Fat, limit: nat, ch: seq<nat>, c: nat)
    requires limit <= |fat| && Links(fat, limit, ch) && 2 <= c < |fat| && c <= 0xFFFF
    ensures forall i :: 0 <= i < |ch| ==> ch[i] < |fat|
    ensures Appended(fat, ch, c) == if ch == [] then fat[c := LAST] else fat[c := LAST][ch[|ch| - 1] := c]
    ensures limit <= c < END && ch != [] ==> !InRange(Appended(fat, ch, c), limit)
  {
    if limit <= c < END && ch != [] {
      assert Appended(fat, ch, c)[ch[|ch| - 1]] == c;
    }
  }

  lemma FreedStep(fat: Fat, limit: nat, c: nat)
    requires limit <= |fat| && limit <= CLUSTER_LIMIT && 2 <= c < limit && StaysInside(fat, limit, c)
    ensures Freed(fat[c := 0], limit, fat[c]) == Freed(fat, limit, c) && StaysInside(fat[c := 0], limit, fat[c])
    ensures fat[c] < limit || END <= fat[c]
    ensures |NonZero(fat[c := 0], |fat|)| <= |NonZero(fat, |fat|)|
    ensures fat[c] != 0 ==> |NonZero(fat[c := 0], |fat|)| < |NonZero(fat, |fat|)|
  {
    InsideBehind(fat, limit, c);
    if fat[c] != 0 {
      FreeingShrinks(fat, c);
    } else {
      assert fat[c := 0] == fat;
    }
  }

  /** fat16_free_cluster_chain: wherever the links that it follows stay on the volume,
      cycles included, it ends, and frees what Freed says. */
  method FreeClusterChain(fs: FatDisk, start: nat) returns (res: int)
    requires fs.Valid() && StaysInside(fs.Now().fat, fs.g.limit, start)
    modifies fs.tables, fs.disk.data
    ensures fs.Valid() && res == 0 && fs.Now() == old(fs.Now()).(fat := Freed(old(fs.Now().fat), fs.g.limit, start))
  {
    LimitFits(fs);
    if start == 0 {
      return 0;
    }
    hide FatDisk.Valid, FatDisk.Now, Geometry.Fits, Freed, NonZero, StaysInside;
    var current: nat := start;
    res := 0;
    ghost var fat := fs.Now().fat;
    while current >= 2 && current < END
      invariant fs.Valid() && res == 0 && |fat| == fs.g.Entries()
      invariant StaysInside(fat, fs.g.limit, current) && (current < fs.g.limit || END <= current)
      invariant fs.Now() == old(fs.Now()).(fat := fat)
      invariant Freed(fat, fs.g.limit, current) == Freed(old(fs.Now().fat), fs.g.limit, start)
      decreases |NonZero(fat, |fat|)|, current >= 2
    {
      FreedStep(fat, fs.g.limit, current);
      var next := FreeOne(fs, current);
      current, fat := next, fat[current := 0];
    }
    FreedNothing(fat, fs.g.limit, current);
  }

  lemma FreedNothing(fat: Fat, limit: nat, c: nat)
    requires limit <= |fat| && !(2 <= c < limit)
    ensures Freed(fat, limit, c) == fat
  {
  }

  /** fat16.c:1031-1043: the entry is read, then zeroed. */
  method FreeOne(fs: FatDisk, current: nat) returns (next: nat)
    requires fs.Valid() && current < fs.g.limit
    modifies fs.tables, fs.disk.data
    ensures fs.Valid() && next == old(fs.Now().fat)[current]
    ensures fs.Now() == old(fs.Now()).(fat := old(fs.Now().fat)[current := 0])
  {
    hide FatDisk.Valid, FatDisk.Raw, FatDisk.Now, Geometry.Fits;
    LimitFits(fs);
    EntryOnDisk(fs, current);
    next := fs.GetFatEntry(current);
    RawIsEntry(fs, current);
    var _ := fs.SetFatEntry(current, 0);
  }

  lemma RawIsEntry(fs: FatDisk, k: nat)
    requires fs.Valid() && k < fs.g.Entries() && fs.g.EntryPos(0, k) + 2 < fs.disk.data.Length
    ensures fs.Raw(k) == fs.Now().fat[k]
  {
  }

  /** The links that lead to an offset stay on the volume. */
  ghost predicate Followable(fs: FatDisk, start: nat, ahead: nat)
    requires fs.g.Fits(fs.disk.data.Length)
    reads fs.disk.data
  {
    fs.g.limit <= |fs.Now().fat| && Walkable(fs.Now().fat, fs.g.limit, start, ahead)
  }

  /** Where the search for an offset ends; a start outside of the volume is only good for
      offset less than a cluster. */
  ghost function Position(fs: FatDisk, start: nat, ahead: nat): int
    requires fs.g.Fits(fs.disk.data.Length) && (ahead == 0 || Followable(fs, start, ahead))
    reads fs.disk.data
  {
    if ahead == 0 then start else Walk(fs.Now().fat, fs.g.limit, start, ahead)
  }

  /** How many links lie before an offset. */
  function Ahead(g: Geometry, offset: nat): nat
    requires g.perCluster > 0
  {
    offset / g.ClusterSize()
  }

  /** fat16_get_cluster_for_offset. */
  method GetClusterForOffset(fs: FatDisk, start: nat, offset: nat) returns (res: int)
    requires fs.Valid() && fs.g.perCluster > 0
    requires (Ahead(fs.g, offset) == 0 || Followable(fs, start, Ahead(fs.g, offset)))
    modifies fs.tables
    ensures res == Position(fs, start, Ahead(fs.g, offset))
  {
    hide FatDisk.Valid, FatDisk.Raw, FatDisk.Now, Geometry.Fits;
    LimitFits(fs);
    var size := fs.g.perCluster * SECTOR;
    var ahead := offset / size;
    assert ahead == Ahead(fs.g, offset);
    hide Ahead;
    res := FollowLinks(fs, start, ahead);
  }

  /** fat16.c:390-408. */
  method FollowLinks(fs: FatDisk, start: nat, ahead: nat) returns (res: int)
    requires fs.Valid() && (ahead == 0 || Followable(fs, start, ahead))
    modifies fs.tables
    ensures res == Position(fs, start, ahead)
  {
    hide FatDisk.Valid, FatDisk.Raw, FatDisk.Now, Geometry.Fits;
    LimitFits(fs);
    var cluster: nat := start;
    var i := 0;
    while i < ahead
      invariant 0 <= i <= ahead && (ahead > 0 ==> Followable(fs, cluster, ahead - i))
      invariant i == ahead || Position(fs, cluster, ahead - i) == Position(fs, start, ahead)
      invariant i == ahead ==> cluster == Position(fs, start, ahead)
    {
      EntryOnDisk(fs, cluster);
      var entry := fs.GetFatEntry(cluster);
      RawIsEntry(fs, cluster);
      if entry >= END {
        return -EOUTOFRANGE;
      }
      if entry == BAD || (entry >= 0xFFF0 && entry <= 0xFFF6) || entry == 0 {
        return -EIO;
      }
      cluster := entry;
      i := i + 1;
    }
    return cluster;
  }
}
