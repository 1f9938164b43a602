/** A FAT16 volume on a disk (fs/fat/fat16.c): single table entries and pieces of clusters,
    read and written through the disk streams. */
module FatVolume {
  import opened Streamer
  import opened FatTable
  import opened FatLayout

  class FatDisk {
    const g: Geometry
    const disk: Disk
    /** fat_read_stream, cluster_read_stream and directory_stream. */
    const tables: DiskStream
    const clusters: DiskStream
    const directory: DiskStream

    constructor (g: Geometry, disk: Disk)
      requires disk.Valid() && g.Fits(disk.data.Length) && Mirrored(g, disk.data[..])
      ensures Valid() && this.g == g && this.disk == disk && fresh(tables) && fresh(clusters) && fresh(directory)
    {
      this.g, this.disk := g, disk;
      tables := new DiskStream(disk);
      clusters := new DiskStream(disk);
      directory := new DiskStream(disk);
    }

    ghost predicate Valid()
      reads disk.data
    {
      && disk.Valid() && tables.disk == disk && clusters.disk == disk && directory.disk == disk
      && g.Fits(disk.data.Length) && Mirrored(g, disk.data[..])
    }

    ghost function Now(): (v: Volume)
      requires g.Fits(disk.data.Length)
      reads disk.data
      ensures |v.fat| == g.Entries() && |v.data| == g.limit && |v.root| == g.rootEntries * 32
      ensures forall k :: 2 <= k < g.limit ==> |v.data[k]| == g.ClusterSize()
    {
      View(g, disk.data[..])
    }

    /** What stands where the entry would be, beyond the table too. */
    ghost function Raw(k: nat): (r: nat)
      requires g.EntryPos(0, k) + 2 <= disk.data.Length
      reads disk.data
      ensures r <= 0xFFFF
      ensures g.Fits(disk.data.Length) && k < g.Entries() ==> r == Now().fat[k]
    {
      Word(disk.data[..], g.EntryPos(0, k))
    }

    /** fat16_get_fat_entry. */
    method GetFatEntry(k: nat) returns (res: int)
      requires Valid() && g.EntryPos(0, k) + 2 < disk.data.Length
      modifies tables
      ensures res == Raw(k)
    {
      var position := g.reserved * SECTOR;
      res := tables.Seek(position + k * 2);
      var result := new Byte[2](_ => 0);
      res := tables.Read(result, 0, 2);
      if res < 0 {
        return res;
      }
      assert result[..] == disk.data[..][g.EntryPos(0, k)..g.EntryPos(0, k) + 2];
      assert result[0] == result[..][0] && result[1] == result[..][1];
      var low: int, high: int := result[0], result[1];
      return low + 256 * high;
    }

    /** fat16_set_fat_entry: the entry changes in every copy of the table, and nothing else
        on the volume does. */
    method SetFatEntry(k: nat, v: nat) returns (res: int)
      requires Valid() && k < g.Entries() && v <= 0xFFFF
      modifies tables, disk.data
      ensures Valid() && res == 0 && Now() == old(Now()).(fat := old(Now()).fat[k := v])
    {
      hide Entry, Clusters, Root;
      assert g.copies > 0;
      hide Geometry.Fits;
      ghost var d := disk.data[..];
      var position := g.reserved * SECTOR + k * 2;
      res := PutEntry(0, position, k, v);
      if res < 0 {
        return;
      }
      var i := 1;
      while i < g.copies
        invariant 1 <= i <= g.copies && res == 0
        invariant forall c: nat, j: nat :: c < g.copies && j < g.Entries() ==>
          Entry(g, disk.data[..], c, j) == if c < i && j == k then v else Entry(g, d, c, j)
        invariant Clusters(g, disk.data[..]) == Clusters(g, d) && Root(g, disk.data[..]) == Root(g, d)
      {
        res := PutEntry(i, position + i * g.fatSectors * SECTOR, k, v);
        if res < 0 {
          return;
        }
        i := i + 1;
      }
      assert Table(g, disk.data[..]) == Table(g, d)[k := v];
    }

    /** One copy of one entry. */
    method PutEntry(c: nat, position: nat, k: nat, v: nat) returns (res: int)
      requires disk.Valid() && tables.disk == disk && g.Fits(disk.data.Length)
      requires c < g.copies && k < g.Entries() && v <= 0xFFFF && position == g.EntryPos(c, k)
      modifies tables, disk.data
      ensures res == 0
      ensures forall c': nat, j: nat :: c' < g.copies && j < g.Entries() ==>
        Entry(g, disk.data[..], c', j) == if c' == c && j == k then v else old(Entry(g, disk.data[..], c', j))
      ensures Clusters(g, disk.data[..]) == old(Clusters(g, disk.data[..]))
      ensures Root(g, disk.data[..]) == old(Root(g, disk.data[..]))
    {
      hide Entry, Geometry.Fits, Splice, Clusters, Root;
      ghost var d := disk.data[..];
      EntryWritten(g, d, c, k, v);
      res := tables.Seek(position);
      var entry := WordBytes(v);
      res := tables.Write(entry);
      assert entry[..2] == entry;
    }

    /** A piece of a cluster, as fat16_write_internal writes it. */
    method WritePiece(k: nat, off: nat, s: seq<Byte>) returns (res: int)
      requires Valid() && 2 <= k < g.limit && off + |s| <= g.ClusterSize()
      modifies clusters, disk.data
      ensures Valid() && res == 0
      ensures Now() == old(Now()).(data := old(Now()).data[k := Splice(old(Now()).data[k], off, s)])
    {
      ghost var d := disk.data[..];
      ClusterWritten(g, d, k, off, s);
      var sector := g.DataStart() + (k - 2) * g.perCluster;
      res := clusters.Seek(sector * SECTOR + off);
      res := clusters.Write(s);
      assert s[..|s|] == s;
    }

    /** A piece of a cluster, as fat16_read_internal_from_stream reads it. */
    method ReadPiece(k: nat, off: nat, n: nat, out: array<Byte>, start: nat) returns (res: int)
      requires Valid() && 2 <= k < g.limit && off + n <= g.ClusterSize()
      requires out != disk.data && start + n <= out.Length
      modifies clusters, out
      ensures res == 0 && out[..] == Splice(old(out[..]), start, Now().data[k][off..off + n])
    {
      hide Geometry.Fits, Splice, Mirrored, Root, Table;
      ClusterInside(g, disk.data.Length, k);
      var sector := g.DataStart() + (k - 2) * g.perCluster;
      ghost var d, p := disk.data[..], g.ClusterPos(k);
      res := clusters.Seek(sector * SECTOR + off);
      res := clusters.Read(out, start, n);
      SliceOfSlice(d, p, g.ClusterSize(), off, n);
    }

    /** A piece of the root directory, as the directory entries are written back. */
    method WriteRoot(off: nat, s: seq<Byte>) returns (res: int)
      requires Valid() && off + |s| <= g.rootEntries * 32
      modifies directory, disk.data
      ensures Valid() && res == 0
      ensures Now() == old(Now()).(root := Splice(old(Now()).root, off, s))
    {
      ghost var d := disk.data[..];
      RootWritten(g, d, off, s);
      res := directory.Seek(g.RootStart() * SECTOR + off);
      res := directory.Write(s);
      assert s[..|s|] == s;
    }

    /** A piece of the root directory, read again from the disk. */
    method ReadRoot(off: nat, n: nat) returns (out: array<Byte>)
      requires Valid() && off + n <= g.rootEntries * 32
      modifies directory
      ensures fresh(out) && out[..] == Now().root[off..off + n]
    {
      hide Geometry.Fits, Splice, Mirrored, Clusters, Table, Geometry.RootStart;
      ghost var d, p := disk.data[..], g.RootStart() * SECTOR;
      TableInside(g, disk.data.Length);
      out := new Byte[n](_ => 0);
      var _ := directory.Seek(g.RootStart() * SECTOR + off);
      var _ := directory.Read(out, 0, n);
      SliceOfSlice(d, p, g.rootEntries * 32, off, n);
    }
  }
}
