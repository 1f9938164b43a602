/** The files of a FAT16 volume: fat16_write, fat16_read and fat16_truncate on open files
    (fs/fat/fat16.c). */
module FatStore {
  import opened Common
  import opened Streamer
  import opened FatTable
  import opened FatLayout
  import opened FatContent
  import opened FatVolume
  import opened FatChains
  import opened FatFiles
  import opened DirItem

  /** An open file: the descriptor with the copy of the directory entry it holds. */
  class OpenFile {
    /** Which file of the volume this is. */
    ghost const id: nat
    const isFile: bool
    const readOnly: bool
    /** The entry's place in the root directory. */
    const slot: nat
    var item: Item
    var pos: nat

    constructor (ghost id: nat, isFile: bool, readOnly: bool, slot: nat, item: Item)
      ensures this.id == id && this.isFile == isFile && this.readOnly == readOnly && this.slot == slot
      ensures this.item == item && pos == 0
    {
      this.id, this.isFile, this.readOnly, this.slot, this.item, pos := id, isFile, readOnly, slot, item, 0;
    }
  }

  /** A mounted volume and the chains of its files. */
  class Store {
    const fs: FatDisk
    ghost var files: Files

    ghost predicate Valid()
      reads this, fs.disk.data
    {
      && fs.Valid() && Partition(fs.Now().fat, fs.g.limit, files)
    }

    constructor (fs: FatDisk, ghost files: Files)
      requires fs.Valid() && Partition(fs.Now().fat, fs.g.limit, files)
      ensures Valid() && this.fs == fs && this.files == files
    {
      this.fs, this.files := fs, files;
    }

    /** The entry names the file's chain, whatever its size says. */
    ghost predicate Named(f: OpenFile)
      reads this, f`item
    {
      && f.id in files && f.item.Valid() && Head(f.item, files[f.id]) && (f.slot + 1) * ITEM <= fs.g.rootEntries * 32
      && (files[f.id] == [] ==> f.item.filesize == 0)
    }

    /** The entry names the file's chain, and the chain holds the file. */
    ghost predicate Entered(f: OpenFile)
      reads this, f`item
    {
      Named(f) && f.item.filesize <= Base(fs.g, |files[f.id]|)
    }

    ghost predicate Open(f: OpenFile)
      reads this, f
    {
      Entered(f) && f.pos <= f.item.filesize
    }
  }

  /** The first cluster of an entry; 0 for an empty chain. */
  predicate Head(item: Item, ch: seq<nat>) {
    item.First() == if ch == [] then 0 else ch[0]
  }

  /** The bytes of a file: its content up to its size. */
  ghost function Bytes(v: Volume, ch: seq<nat>, size: nat): (r: seq<Byte>)
    requires FatContent.Within(v.data, ch) && size <= |Content(v.data, ch)|
    ensures |r| == size
  {
    Content(v.data, ch)[..size]
  }

  /** `s` put at `p`, the sequence growing as needed. */
  function Overwrite(d: seq<Byte>, p: nat, s: seq<Byte>): (r: seq<Byte>)
    requires p <= |d|
    ensures |r| == if p + |s| > |d| then p + |s| else |d|
  {
    d[..p] + s + if p + |s| < |d| then d[p + |s|..] else []
  }

  /** A write of `s` at `p` into the content overwrites the file's bytes. */
  lemma WroteBytes(before: seq<Byte>, extra: seq<Byte>, size: nat, p: nat, s: seq<Byte>)
    requires p <= size <= |before| && p + |s| <= |before + extra|
    ensures var now := if p + |s| > size then p + |s| else size;
            Splice(before + extra, p, s)[..now] == Overwrite(before[..size], p, s)
  {
  }

  lemma {:induction false} ContentPrefix(data: seq<seq<Byte>>, ch: seq<nat>, grown: seq<nat>)
    requires FatContent.Within(data, grown) && ch <= grown
    ensures Content(data, ch) <= Content(data, grown)
    decreases |grown|
  {
    if ch != grown {
      assert ch == grown[..|ch|] == grown[..|grown| - 1][..|ch|];
      ContentPrefix(data, ch, grown[..|grown| - 1]);
    }
  }

  lemma StoreParts(store: Store)
    requires store.Valid()
    ensures store.fs.Valid() && store.fs.g.Fits(store.fs.disk.data.Length) && Shaped(store.fs.g, store.fs.Now())
    ensures store.fs.g.perCluster > 0
    ensures Partition(store.fs.Now().fat, store.fs.g.limit, store.files)
    ensures forall f :: f in store.files ==>
      && Links(store.fs.Now().fat, store.fs.g.limit, store.files[f])
      && FatContent.Within(store.fs.Now().data, store.files[f])
  {
    NowShaped(store.fs);
    forall f | f in store.files ensures FatContent.Within(store.fs.Now().data, store.files[f]) {
      LinksWithin(store.fs.g, store.fs.Now(), store.files[f]);
    }
  }

  /** Growing one file's chain keeps the partition and the bytes of every other file. */
  lemma GrewKeeps(g: Geometry, v0: Volume, v: Volume, files: Files, f: nat, grown: seq<nat>)
    requires Shaped(g, v0) && Shaped(g, v) && Partition(v0.fat, g.limit, files) && f in files
    requires Grew(g, v0, v, files[f], grown)
    ensures Partition(v.fat, g.limit, files[f := grown])
    ensures forall o :: o in files && o != f ==> OtherKept(v0, v, files[o])
  {
    var ch := files[f];
    forall k | k in grown && k !in ch ensures 0 <= k < |v0.fat| && v0.fat[k] == 0 {
      var i :| 0 <= i < |grown| && grown[i] == k;
      assert i < |ch| ==> grown[i] == ch[i];
    }
    assert forall k :: k in ch ==> k in grown;
    OthersKept(v0.fat, v.fat, g.limit, files, f, grown);
    forall o | o in files && o != f ensures OtherKept(v0, v, files[o]) {
      forall i | 0 <= i < |files[o]| ensures files[o][i] !in grown {
        TakenOf(v0.fat, g.limit, files[o], files[o][i]);
      }
      ContentSame(v0.data, v.data, files[o]);
    }
  }

  /** The clusters of a chain hold what they held. */
  ghost predicate OtherKept(v0: Volume, v: Volume, ch: seq<nat>) {
    FatContent.Within(v0.data, ch) && FatContent.Within(v.data, ch) && Content(v.data, ch) == Content(v0.data, ch)
  }

  /** What the free clusters allow for a write that ends at `n`. Where the error number is
      going to be taken for a cluster, its position is an `int`. */
  ghost predicate CanGrow(g: Geometry, v: Volume, ch: seq<nat>, n: nat)
    requires Shaped(g, v) && g.perCluster > 0
  {
    && Room(g, v, ch, n)
    && (ch == [] ==> Free(v.fat, g.Usable()) != {} || (Sealed(g, v.fat) && g.ClusterPos(0x1_0000 - ENOMEM) < INT_LIMIT))
  }

  lemma FirstGrew(g: Geometry, v: Volume, files: Files, f: nat)
    requires Shaped(g, v) && Partition(v.fat, g.limit, files) && f in files && files[f] == []
    requires Free(v.fat, g.Usable()) != {}
    ensures var c := LeastFree(v.fat, 2);
            && 2 <= c < g.limit
            && var now := v.(fat := Appended(v.fat, [], c));
               Shaped(g, now) && Grew(g, v, now, [], [c]) && Partition(now.fat, g.limit, files[f := [c]])
  {
    FreeIsLeast(v.fat, g.Usable());
    var c := LeastFree(v.fat, 2);
    GrewNothing(g, v, []);
    GrewMore(g, v, v, [], [], c);
    assert [] + [c] == [c];
    GrewKeeps(g, v, v.(fat := Appended(v.fat, [], c)), files, f, [c]);
  }

  /** fat16.c:1184-1190: the first cluster of an empty file. The test for an error is made
      on an unsigned number, so what the search returns on a full volume becomes the first
      cluster. */
  method AllocateFirst(store: Store, f: OpenFile) returns (start: nat)
    requires store.Valid() && store.Open(f) && store.files[f.id] == []
    requires store.fs.g.perCluster > 0
    requires (Sealed(store.fs.g, store.fs.Now().fat) || Free(store.fs.Now().fat, store.fs.g.Usable()) != {})
    modifies store`files, f`item, store.fs.tables, store.fs.disk.data
    ensures store.Valid() && f.item == old(f.item).(low := start % 0x1_0000, high := start / 0x1_0000)
    ensures old(Free(store.fs.Now().fat, store.fs.g.Usable())) == {} ==>
      && start == 0x1_0000_0000 - ENOMEM && store.fs.Now() == old(store.fs.Now()) && store.files == old(store.files)
    ensures old(Free(store.fs.Now().fat, store.fs.g.Usable())) != {} ==>
      && start == LeastFree(old(store.fs.Now().fat), 2) && start < store.fs.g.limit
      && store.fs.Now() == old(store.fs.Now()).(fat := Appended(old(store.fs.Now().fat), [], start))
      && store.files == old(store.files)[f.id := [start]]
  {
    ghost var v0, files := store.fs.Now(), store.files;
    StoreParts(store);
    if Free(v0.fat, store.fs.g.Usable()) != {} {
      FirstGrew(store.fs.g, v0, files, f.id);
    }
    hide FatDisk.Valid, FatDisk.Now, Geometry.Fits, Links, Partition, Free, Grew, Sealed, LeastFree, Appended,
         Shaped;
    var res := AllocateCluster(store.fs, -1, []);
    start := if res < 0 then res + 0x1_0000_0000 else res;
    f.item := f.item.(low := start % 0x1_0000, high := start / 0x1_0000);
    if Free(v0.fat, store.fs.g.Usable()) != {} {
      store.files := files[f.id := [start]];
    }
  }

  lemma HeadIsTaken(g: Geometry, v: Volume, ch: seq<nat>)
    requires Shaped(g, v) && Links(v.fat, g.limit, ch) && ch != []
    ensures 2 <= ch[0] < g.limit
  {
  }

  /** A finished write overwrites the bytes of the file, whatever the chain gained. */
  lemma BytesOverwritten(g: Geometry, v0: Volume, v: Volume, ch: seq<nat>, grown: seq<nat>, p: nat, s: seq<Byte>,
      size: nat)
    requires Progress(g, v0, v, ch, grown, p, s) && FatContent.Within(v0.data, ch) && p <= size <= Base(g, |ch|)
    ensures size <= |Content(v0.data, ch)|
    ensures var now := if p + |s| > size then p + |s| else size;
            now <= Base(g, |grown|) == |Content(v.data, grown)|
              && Bytes(v, grown, now) == Overwrite(Bytes(v0, ch, size), p, s)
  {
    ProgressFacts(g, v0, v, ch, grown, p, s);
    hide Progress, Splice, Overwrite, Content, FatContent.Within, FatContent.Sized;
    ContentLength(v0.data, ch, g.ClusterSize());
    ContentLength(v0.data, grown, g.ClusterSize());
    ContentLength(v.data, grown, g.ClusterSize());
    ContentPrefix(v0.data, ch, grown);
    var before, all := Content(v0.data, ch), Content(v0.data, grown);
    var extra := all[|before|..];
    assert all == before + extra;
    WroteBytes(before, extra, size, p, s);
  }

  lemma ProgressFacts(g: Geometry, v0: Volume, v: Volume, ch: seq<nat>, grown: seq<nat>, p: nat, s: seq<Byte>)
    requires Progress(g, v0, v, ch, grown, p, s)
    ensures ch <= grown && FatContent.Within(v0.data, grown) && FatContent.Within(v.data, grown)
    ensures FatContent.Sized(v0.data, g.ClusterSize()) && FatContent.Sized(v.data, g.ClusterSize())
    ensures Wrote(v0, v, grown, p, s)
  {
  }

  /** fat16_extend_file: the size is put into the entry, and the entry on the disk. */
  method ExtendFile(fs: FatDisk, f: OpenFile, newSize: nat)
    requires fs.Valid() && f.item.Valid() && (f.slot + 1) * ITEM <= fs.g.rootEntries * 32 && newSize <= 0xFFFF_FFFF
    modifies f`item, fs.directory, fs.disk.data
    ensures fs.Valid()
    ensures f.item == old(f.item).(filesize := if newSize > old(f.item.filesize) then newSize else old(f.item.filesize))
    ensures newSize <= old(f.item.filesize) ==> fs.Now() == old(fs.Now())
    ensures newSize > old(f.item.filesize) ==>
      fs.Now() == old(fs.Now()).(root := Splice(old(fs.Now()).root, f.slot * ITEM, Encode(f.item)))
  {
    if newSize <= f.item.filesize {
      return;
    }
    f.item := f.item.(filesize := newSize);
    var _ := fs.WriteRoot(f.slot * ITEM, Encode(f.item));
  }

  /** The entry of an open file as it stands on the disk. */
  ghost function OnDisk(fs: FatDisk, slot: nat): Item
    requires fs.g.Fits(fs.disk.data.Length) && (slot + 1) * ITEM <= fs.g.rootEntries * 32
    reads fs.disk.data
  {
    Decode(fs.Now().root[slot * ITEM..slot * ITEM + ITEM])
  }

  /** The bytes of a file before and after a write of `s` at `p`. */
  ghost predicate Overwritten(g: Geometry, v0: Volume, v: Volume, ch: seq<nat>, grown: seq<nat>, p: nat, s: seq<Byte>,
      size: nat) {
    var now := if p + |s| > size then p + |s| else size;
    && FatContent.Within(v0.data, ch) && FatContent.Within(v.data, grown) && p <= size
    && size <= |Content(v0.data, ch)| && now <= |Content(v.data, grown)| == Base(g, |grown|)
    && Bytes(v, grown, now) == Overwrite(Bytes(v0, ch, size), p, s)
  }

  /** A write of `s` at `p` that ran out of clusters: the chain has taken all that were free
      and ends in the middle of `s`; what fits is in place, and the rest of the file's bytes
      are what they were. */
  ghost predicate CutShort(g: Geometry, v0: Volume, v: Volume, ch: seq<nat>, grown: seq<nat>, p: nat, s: seq<Byte>,
      size: nat)
    requires g.limit <= |v0.fat|
  {
    && ch <= grown && |grown| == |ch| + |Free(v0.fat, g.Usable())|
    && p <= Base(g, |grown|) < p + |s|
    && Overwritten(g, v0, v, ch, grown, p, s[..Base(g, |grown|) - p], size)
  }

  /** The file then holds the bytes that the whole write would have left, up to its old
      size. */
  lemma CutShortBytes(g: Geometry, v0: Volume, v: Volume, ch: seq<nat>, grown: seq<nat>, p: nat, s: seq<Byte>,
      size: nat)
    requires g.limit <= |v0.fat| && CutShort(g, v0, v, ch, grown, p, s, size)
    ensures FatContent.Within(v0.data, ch) && FatContent.Within(v.data, grown) && p <= size
    ensures size <= |Content(v0.data, ch)| && size <= |Content(v.data, grown)|
    ensures Bytes(v, grown, size) == Overwrite(Bytes(v0, ch, size), p, s)[..size]
  {
    var done := s[..Base(g, |grown|) - p];
    var d, whole := Bytes(v0, ch, size), Bytes(v, grown, Base(g, |grown|));
    assert whole == Overwrite(d, p, done);
    assert Bytes(v, grown, size) == whole[..size];
    ShortPrefix(d, p, s, done);
  }

  lemma ShortPrefix(d: seq<Byte>, p: nat, s: seq<Byte>, done: seq<Byte>)
    requires p <= |d| <= p + |done| && done <= s
    ensures Overwrite(d, p, done)[..|d|] == Overwrite(d, p, s)[..|d|]
  {
  }

  /** How the write along the chain of file `f` came out. */
  ghost predicate Outcome(g: Geometry, v0: Volume, v: Volume, files: Files, f: nat, grown: seq<nat>, p: nat,
      s: seq<Byte>, size: nat, res: int)
    requires g.perCluster > 0 && f in files
  {
    var ch := files[f];
    && Shaped(g, v0) && Shaped(g, v) && ch <= grown && v.root == v0.root
    && |grown| + |Free(v.fat, g.Usable())| == |ch| + |Free(v0.fat, g.Usable())|
    && (forall o :: o in files && o != f ==> OtherKept(v0, v, files[o]))
    && (!Readable(g, ch, p) ==> res == Located(ch, 0, Ahead(g, p)) && grown == ch && v == v0)
    && (Readable(g, ch, p) && res < 0 ==>
          && res == -ENOMEM && Free(v.fat, g.Usable()) == {} && CutShort(g, v0, v, ch, grown, p, s, size))
    && (res >= 0 ==> Readable(g, ch, p) && res == |s| && Overwritten(g, v0, v, ch, grown, p, s, size))
  }

  lemma WriteOutcome(g: Geometry, v0: Volume, v: Volume, files: Files, f: nat, grown: seq<nat>, p: nat, s: seq<Byte>,
      size: nat, done: nat, res: int)
    requires g.perCluster > 0 && f in files && Shaped(g, v0) && Partition(v0.fat, g.limit, files)
    requires FatContent.Within(v0.data, files[f])
    requires p <= size <= Base(g, |files[f]|) && Readable(g, files[f], p)
    requires Written(g, v0, v, files[f], grown, p, s, done, res)
    ensures Outcome(g, v0, v, files, f, grown, p, s, size, res)
    ensures Partition(v.fat, g.limit, files[f := grown])
  {
    var ch := files[f];
    GrewKeeps(g, v0, v, files, f, grown);
    assert Grew(g, v0, v, ch, grown);
    hide Grew, Shaped, Partition, Bytes, Wrote, Overwrite, OtherKept;
    GrewAll(g, v0, v, ch, grown);
    if res >= 0 {
      assert s[..done] == s;
      BytesOverwritten(g, v0, v, ch, grown, p, s, size);
    } else {
      assert p + done == Base(g, |grown|);
      BytesOverwritten(g, v0, v, ch, grown, p, s[..done], size);
      assert |Free(v.fat, g.Usable())| == 0;
    }
  }

  lemma GrewAll(g: Geometry, v0: Volume, v: Volume, ch: seq<nat>, grown: seq<nat>)
    requires Shaped(g, v0) && Shaped(g, v) && Grew(g, v0, v, ch, grown)
    ensures ch <= grown && v.root == v0.root && |grown| + |Free(v.fat, g.Usable())| == |ch| + |Free(v0.fat, g.Usable())|
  {
  }

  /** fat16.c:1194: the write along the chain. */
  method WriteThrough(store: Store, f: OpenFile, s: seq<Byte>) returns (res: int, ghost grown: seq<nat>)
    requires store.Valid() && store.Open(f) && store.files[f.id] != [] && store.fs.g.perCluster > 0
    requires Shaped(store.fs.g, store.fs.Now()) && Room(store.fs.g, store.fs.Now(), store.files[f.id], f.pos + |s|)
    modifies store`files, store.fs.tables, store.fs.clusters, store.fs.disk.data
    ensures store.Valid() && store.files == old(store.files)[f.id := grown]
    ensures Outcome(store.fs.g, old(store.fs.Now()), store.fs.Now(), old(store.files), f.id, grown, f.pos, s,
      f.item.filesize, res)
  {
    ghost var v0, ch, files, g := store.fs.Now(), store.files[f.id], store.files, store.fs.g;
    StoreParts(store);
    assert |files[f.id]| == |ch|;
    hide FatDisk.Valid, FatDisk.Now, Geometry.Fits, Partition, Written, Overwritten, Shaped, Room, Located,
         OtherKept, FatContent.Within;
    ghost var done;
    res, grown, done := WriteInternal(store.fs, f.item.First(), f.pos, s, ch);
    store.files := files[f.id := grown];
    if Readable(g, ch, f.pos) {
      WriteOutcome(g, v0, store.fs.Now(), files, f.id, grown, f.pos, s, f.item.filesize, done, res);
    } else {
      assert files[f.id := ch] == files;
      NothingKept(v0, files);
    }
  }

  lemma NothingKept(v: Volume, files: Files)
    requires forall o :: o in files ==> FatContent.Within(v.data, files[o])
    ensures forall o :: o in files ==> OtherKept(v, v, files[o])
  {
  }

  /** Where a write leaves the directory entry `was` of a file and the root directory: only
      the size and the first cluster change, and if the file got longer the new entry is in
      its slot on the disk; nothing else in the root directory changes. */
  ghost predicate Stored(store: Store, f: OpenFile, root: seq<Byte>, was: Item)
    requires store.fs.g.Fits(store.fs.disk.data.Length)
    reads f, store.fs.disk.data
  {
    && f.item.Valid() && (f.slot + 1) * ITEM <= store.fs.g.rootEntries * 32 == |root|
    && f.item == was.(filesize := f.item.filesize, low := f.item.low, high := f.item.high)
    && store.fs.Now().root ==
      (if f.item.filesize > was.filesize then Splice(root, f.slot * ITEM, Encode(f.item)) else root)
    && (f.item.filesize > was.filesize ==> OnDisk(store.fs, f.slot) == f.item)
  }

  lemma StoredSince(store: Store, f: OpenFile, root: seq<Byte>, mid: Item, was: Item)
    requires store.fs.g.Fits(store.fs.disk.data.Length) && Stored(store, f, root, mid)
    requires mid == was.(low := mid.low, high := mid.high)
    ensures Stored(store, f, root, was)
  {
  }

  /** fat16.c:1193-1205: the write proper, to a file that has a chain. */
  method WriteOpen(store: Store, f: OpenFile, s: seq<Byte>) returns (res: int, ghost grown: seq<nat>)
    requires store.Valid() && store.Open(f) && store.files[f.id] != [] && store.fs.g.perCluster > 0
    requires Shaped(store.fs.g, store.fs.Now()) && Room(store.fs.g, store.fs.Now(), store.files[f.id], f.pos + |s|)
    requires f.pos + |s| <= 0xFFFF_FFFF
    modifies store`files, f`item, f`pos, store.fs.tables, store.fs.clusters, store.fs.directory, store.fs.disk.data
    ensures store.Valid() && store.Open(f) && store.files == old(store.files)[f.id := grown]
    ensures Outcome(store.fs.g, old(store.fs.Now()), store.fs.Now().(root := old(store.fs.Now().root)),
      old(store.files), f.id,
                    grown, old(f.pos), s, old(f.item.filesize), res)
    ensures f.pos == old(f.pos) + (if res >= 0 then |s| else 0) && f.item.First() == old(f.item.First())
    ensures f.item.filesize == if f.pos > old(f.item.filesize) then f.pos else old(f.item.filesize)
    ensures Stored(store, f, old(store.fs.Now().root), old(f.item))
    ensures (res < 0 ==> store.fs.Now().root == old(store.fs.Now().root))
  {
    hide FatDisk.Valid, FatDisk.Now, Geometry.Fits, Partition, Shaped, Room, OtherKept, Readable, Free,
         Outcome, FatContent.Within, Store.Valid, Links, Encode, Decode, Splice, Base;
    StoreParts(store);
    ghost var v0, files, size, p, g := store.fs.Now(), store.files, f.item.filesize, f.pos, store.fs.g;
    res, grown := WriteThrough(store, f, s);
    ghost var v := store.fs.Now();
    OutcomeFacts(g, v0, v, files, f.id, grown, p, s, size, res);
    StoreParts(store);
    if res < 0 {
      return;
    }
    f.pos := f.pos + res;
    if f.pos > f.item.filesize {
      ExtendFile(store.fs, f, f.pos);
      EntryStored(v.root, f.slot, f.item);
      SameStore(store, v.fat);
    }
  }

  lemma SameStore(store: Store, fat: Fat)
    requires store.fs.Valid() && store.fs.Now().fat == fat && store.fs.g.limit <= |fat|
    requires Partition(fat, store.fs.g.limit, store.files)
    ensures store.Valid()
  {
  }

  lemma OutcomeFacts(g: Geometry, v0: Volume, v: Volume, files: Files, f: nat, grown: seq<nat>, p: nat, s: seq<Byte>,
      size: nat, res: int)
    requires g.perCluster > 0 && f in files && Outcome(g, v0, v, files, f, grown, p, s, size, res)
    requires size <= Base(g, |files[f]|)
    ensures v.root == v0.root && (files[f] != [] ==> grown != [] && grown[0] == files[f][0]) && size <= Base(g, |grown|)
    ensures res >= 0 ==> res == |s| && (p + |s| <= Base(g, |grown|) || p + |s| <= size)
  {
    Longer(g, |files[f]|, |grown|);
  }

  lemma Longer(g: Geometry, n: nat, m: nat)
    ensures n <= m ==> Base(g, n) <= Base(g, m)
  {
    if n <= m {
      MulOrder(n, m, g.ClusterSize());
    }
  }

  /** fat16_write_internal from a start that is no cluster of the volume: the first write
      falls behind the end of the disk. */
  method WriteBeyond(fs: FatDisk, start: nat, offset: nat, s: seq<Byte>) returns (res: int)
    requires fs.Valid() && fs.g.perCluster > 0 && start >= CLUSTER_LIMIT && offset < fs.g.ClusterSize()
    modifies fs.tables, fs.clusters, fs.disk.data
    ensures fs.Valid() && fs.Now() == old(fs.Now()) && res == if s == [] then 0 else -EIO
  {
    Divided(offset, fs.g.ClusterSize());
    FirstPiece(fs.g, offset);
    var cluster := GetClusterForOffset(fs, start, offset);
    if s == [] {
      return 0;
    }
    var size := fs.g.perCluster * SECTOR;
    var toWrite := size - offset;
    if toWrite > |s| {
      toWrite := |s|;
    }
    PastTheEnd(fs, start);
    ghost var d := fs.disk.data[..];
    var sector := fs.g.DataStart() + (start - 2) * fs.g.perCluster;
    res := fs.clusters.Seek(sector * SECTOR + offset);
    res := fs.clusters.Write(s[..toWrite]);
    SpliceNothing(d, |d|);
    assert fs.disk.data[..] == d;
  }

  lemma FirstPiece(g: Geometry, offset: nat)
    requires g.perCluster > 0 && offset < g.ClusterSize()
    ensures Ahead(g, offset) == 0
  {
    Divided(offset, g.ClusterSize());
    if Ahead(g, offset) > 0 {
      MulOrder(1, Ahead(g, offset), g.ClusterSize());
    }
  }

  lemma PastTheEnd(fs: FatDisk, start: nat)
    requires fs.Valid() && start >= CLUSTER_LIMIT
    ensures fs.g.ClusterPos(start) >= fs.disk.data.Length
  {
    if start > CLUSTER_LIMIT {
      ClustersApart(fs.g, CLUSTER_LIMIT, start);
    }
  }

  /** A write of `s` at `p` to file `f`, from the volume `v0` to `v`. */
  ghost predicate WriteDone(g: Geometry, v0: Volume, v: Volume, files: Files, after: Files, f: nat, p: nat,
      s: seq<Byte>, size: nat, res: int)
    requires g.perCluster > 0 && f in files
  {
    && Shaped(g, v0) && f in after && after == files[f := after[f]]
    && (forall o :: o in files && o != f ==> OtherKept(v0, v, files[o]))
    // It succeeds exactly when the position can be reached and the free clusters suffice.
    && (res >= 0 <==>
        (files[f] == [] || Readable(g, files[f], p)) && p + |s| <= Base(g, |files[f]| + |Free(v0.fat, g.Usable())|))
    && (res >= 0 ==> res == |s| && Overwritten(g, v0, v, files[f], after[f], p, s, size))
    && (res < 0 ==>
          if files[f] == [] || Readable(g, files[f], p)
          then res == -ENOMEM && v.root == v0.root && CutShort(g, v0, v, files[f], after[f], p, s, size)
          else res == Located(files[f], 0, Ahead(g, p)) && v == v0 && after == files)
  }

  lemma FinishOld(g: Geometry, v0: Volume, v1: Volume, v: Volume, files: Files, f: nat, grown: seq<nat>, p: nat,
      s: seq<Byte>, size: nat, res: int)
    requires g.perCluster > 0 && f in files && files[f] != []
    requires Outcome(g, v0, v1, files, f, grown, p, s, size, res) && v == v1.(root := v.root)
    requires (res < 0 ==> v.root == v0.root)
    ensures WriteDone(g, v0, v, files, files[f := grown], f, p, s, size, res)
  {
    FitsExactly(g, v0, v1, files, f, grown, p, s, size, res);
    hide Content, Base, Overwrite;
  }

  lemma FitsExactly(g: Geometry, v0: Volume, v: Volume, files: Files, f: nat, grown: seq<nat>, p: nat, s: seq<Byte>,
      size: nat, res: int)
    requires g.perCluster > 0 && f in files && Outcome(g, v0, v, files, f, grown, p, s, size, res)
    ensures res >= 0 <==> Readable(g, files[f], p) && p + |s| <= Base(g, |files[f]| + |Free(v0.fat, g.Usable())|)
  {
    if res >= 0 {
      Longer(g, |grown|, |files[f]| + |Free(v0.fat, g.Usable())|);
    }
  }

  /** The same for a file that was empty and got its first cluster `c` before. */
  lemma FinishNew(g: Geometry, v0: Volume, c: nat, v1: Volume, v: Volume, files: Files, f: nat, grown: seq<nat>,
      s: seq<Byte>, res: int)
    requires g.perCluster > 0 && f in files && files[f] == [] && Shaped(g, v0) && Free(v0.fat, g.Usable()) != {}
    requires Partition(v0.fat, g.limit, files) && c == LeastFree(v0.fat, 2) && 2 <= c <= 0xFFFF && c < |v0.fat|
    requires var w := v0.(fat := Appended(v0.fat, [], c));
             Outcome(g, w, v1, files[f := [c]], f, grown, 0, s, 0, res)
    requires v == v1.(root := v.root) && (res < 0 ==> v.root == v0.root)
    ensures WriteDone(g, v0, v, files, files[f := grown], f, 0, s, 0, res)
  {
    hide Content, Base, Overwrite, Appended, Grew, Partition, Free, Links, Bytes, Shaped, LeastFree, Readable,
         FatContent.Within, Overwritten, OtherKept, CutShort;
    var w, mid := v0.(fat := Appended(v0.fat, [], c)), files[f := [c]];
    FirstGrew(g, v0, files, f);
    GrewAll(g, v0, w, [], [c]);
    FirstReadable(g, c);
    FitsExactly(g, w, v1, mid, f, grown, 0, s, 0, res);
    assert mid[f := grown] == files[f := grown];
    forall o | o in files && o != f ensures OtherKept(v0, v, files[o]) {
      assert OtherKept(w, v1, mid[o]);
      SameDataKept(v0, w, v1, v, files[o]);
    }
    if res >= 0 {
      OverwrittenNew(g, v0, w, v1, v, c, grown, s);
    } else {
      CutShortNew(g, v0, w, v1, v, c, grown, s);
    }
  }

  lemma CutShortNew(g: Geometry, v0: Volume, w: Volume, v1: Volume, v: Volume, c: nat, grown: seq<nat>, s: seq<Byte>)
    requires g.limit <= |v0.fat| == |w.fat| && w.data == v0.data && v.data == v1.data
    requires CutShort(g, w, v1, [c], grown, 0, s, 0)
    requires |[c]| + |Free(w.fat, g.Usable())| == |Free(v0.fat, g.Usable())|
    ensures CutShort(g, v0, v, [], grown, 0, s, 0)
  {
    hide Overwritten, Free;
    OverwrittenNew(g, v0, w, v1, v, c, grown, s[..Base(g, |grown|)]);
    assert s[..Base(g, |grown|) - 0] == s[..Base(g, |grown|)];
  }

  lemma FirstReadable(g: Geometry, c: nat)
    requires g.perCluster > 0
    ensures Readable(g, [c], 0)
  {
    FirstPiece(g, 0);
  }

  lemma SameDataKept(v0: Volume, w: Volume, v1: Volume, v: Volume, ch: seq<nat>)
    requires w.data == v0.data && v.data == v1.data && OtherKept(w, v1, ch)
    ensures OtherKept(v0, v, ch)
  {
  }

  lemma OverwrittenNew(g: Geometry, v0: Volume, w: Volume, v1: Volume, v: Volume, c: nat, grown: seq<nat>, s: seq<Byte>)
    requires w.data == v0.data && v.data == v1.data && Overwritten(g, w, v1, [c], grown, 0, s, 0)
    ensures Overwritten(g, v0, v, [], grown, 0, s, 0)
  {
    assert Content(v0.data, []) == [];
    assert Bytes(w, [c], 0) == Bytes(v0, [], 0);
  }

  /** A write to a file that has clusters. */
  method WriteLonger(store: Store, f: OpenFile, s: seq<Byte>) returns (res: int)
    requires store.Valid() && store.Open(f) && store.files[f.id] != [] && store.fs.g.perCluster > 0
    requires Shaped(store.fs.g, store.fs.Now()) && Room(store.fs.g, store.fs.Now(), store.files[f.id], f.pos + |s|)
    requires f.pos + |s| <= 0xFFFF_FFFF
    modifies store`files, f`item, f`pos, store.fs.tables, store.fs.clusters, store.fs.directory, store.fs.disk.data
    ensures store.Valid() && store.Open(f) && Stored(store, f, old(store.fs.Now().root), old(f.item))
    ensures f.pos == old(f.pos) + if res >= 0 then |s| else 0
    ensures f.item.filesize == if f.pos > old(f.item.filesize) then f.pos else old(f.item.filesize)
    ensures WriteDone(store.fs.g, old(store.fs.Now()), store.fs.Now(), old(store.files), store.files, f.id, old(f.pos),
      s,
                   old(f.item.filesize), res)
  {
    StoreParts(store);
    hide FatDisk.Valid, FatDisk.Now, Geometry.Fits, Partition, Shaped, Room, OtherKept, Readable, Free,
         Outcome, FatContent.Within, Store.Valid, Links, Encode, Splice, Base, WriteDone, Decode;
    ghost var v0, files, size, p, root := store.fs.Now(), store.files, f.item.filesize, f.pos, store.fs.Now().root;
    ghost var grown;
    res, grown := WriteOpen(store, f, s);
    StoreParts(store);
    FinishOld(store.fs.g, v0, store.fs.Now().(root := root), store.fs.Now(), files, f.id, grown, p, s, size, res);
  }

  lemma RoomNew(g: Geometry, v0: Volume, files: Files, f: nat, c: nat, n: nat)
    requires g.perCluster > 0 && Shaped(g, v0) && Partition(v0.fat, g.limit, files) && f in files && files[f] == []
    requires Free(v0.fat, g.Usable()) != {} && c == LeastFree(v0.fat, 2) && 2 <= c <= 0xFFFF && c < |v0.fat|
    requires Room(g, v0, [], n)
    ensures var w := v0.(fat := Appended(v0.fat, [], c)); Shaped(g, w) && Room(g, w, [c], n)
  {
    var w := v0.(fat := Appended(v0.fat, [], c));
    FirstGrew(g, v0, files, f);
    GrewAll(g, v0, w, [], [c]);
    SealedKept(g, v0, w, [], [c]);
  }

  /** What an open file with an empty chain looks like. */
  lemma EmptyFile(store: Store, f: OpenFile)
    requires store.Open(f) && store.files[f.id] == []
    ensures f.pos == f.item.filesize == 0 && f.item.First() == 0 && f.item.Valid()
    ensures f.id in store.files && (f.slot + 1) * ITEM <= store.fs.g.rootEntries * 32
  {
  }

  /** The entry for the first cluster, and for the error number taken for one. */
  lemma FirstIs(item: Item, start: nat)
    requires item == item.(low := start % 0x1_0000, high := start / 0x1_0000)
    ensures item.First() == start && (0x1_0000_0000 - ENOMEM) % 0x1_0000 >= CLUSTER_LIMIT
  {
  }

  lemma OpenNew(store: Store, f: OpenFile, start: nat)
    requires f.id in store.files && store.files[f.id] == [start] && f.item.Valid() && f.item.First() == start
    requires (f.slot + 1) * ITEM <= store.fs.g.rootEntries * 32 && f.pos == f.item.filesize == 0
    ensures store.Open(f)
  {
  }

  /** The first cluster is there: the rest of a write to an empty file. */
  method WriteStarted(store: Store, f: OpenFile, s: seq<Byte>, ghost v0: Volume, ghost files: Files, ghost start: nat)
    returns (res: int)
    requires store.Valid() && store.Open(f) && store.fs.g.perCluster > 0 && |s| <= 0xFFFF_FFFF
    requires Shaped(store.fs.g, v0) && Partition(v0.fat, store.fs.g.limit, files)
    requires f.id in files && files[f.id] == [] && store.files == files[f.id := [start]]
    requires f.pos == f.item.filesize == 0
    requires Free(v0.fat, store.fs.g.Usable()) != {} && start == LeastFree(v0.fat, 2) && 2 <= start <= 0xFFFF
    requires start < |v0.fat|
    requires store.fs.Now() == v0.(fat := Appended(v0.fat, [], start)) && Room(store.fs.g, v0, [], |s|)
    modifies store`files, f`item, f`pos, store.fs.tables, store.fs.clusters, store.fs.directory, store.fs.disk.data
    ensures store.Valid() && store.Open(f) && Stored(store, f, v0.root, old(f.item))
    ensures f.pos == f.item.filesize == (if res >= 0 then |s| else 0)
    ensures WriteDone(store.fs.g, v0, store.fs.Now(), files, store.files, f.id, 0, s, 0, res)
  {
    hide FatDisk.Valid, FatDisk.Now, Geometry.Fits, Partition, Shaped, Room, OtherKept, Readable, Free,
         Outcome, FatContent.Within, Links, Encode, Splice, Base, WriteDone, Decode, Sealed, Appended, Store.Valid,
         LeastFree, Item.First, Store.Open, Stored;
    StoreParts(store);
    RoomNew(store.fs.g, v0, files, f.id, start, |s|);
    ghost var w, mid, end := store.fs.Now(), store.files, f.pos + |s|;
    assert mid[f.id] == [start] && end == |s|;
    assert Room(store.fs.g, w, mid[f.id], end);
    ghost var grown;
    res, grown := WriteOpen(store, f, s);
    StoreParts(store);
    FinishNew(store.fs.g, v0, start, store.fs.Now().(root := w.root), store.fs.Now(), files, f.id, grown, s, res);
    assert mid[f.id := grown] == files[f.id := grown];
  }

  /** A write to an empty file. */
  method WriteNew(store: Store, f: OpenFile, s: seq<Byte>) returns (res: int)
    requires store.Valid() && store.Open(f) && store.files[f.id] == [] && store.fs.g.perCluster > 0
    requires Shaped(store.fs.g, store.fs.Now()) && CanGrow(store.fs.g, store.fs.Now(), [], |s|) && |s| <= 0xFFFF_FFFF
    modifies store`files, f`item, f`pos, store.fs.tables, store.fs.clusters, store.fs.directory, store.fs.disk.data
    ensures store.Valid()
    ensures old(Free(store.fs.Now().fat, store.fs.g.Usable())) == {} ==>
      && res == (if s == [] then 0 else -EIO) && f.item.First() == 0xFFFF_FFFD && f.pos == 0
      && store.fs.Now() == old(store.fs.Now()) && store.files == old(store.files)
    ensures old(Free(store.fs.Now().fat, store.fs.g.Usable())) != {} ==>
      && store.Open(f) && Stored(store, f, old(store.fs.Now().root), old(f.item))
      && f.pos == f.item.filesize == (if res >= 0 then |s| else 0)
      && WriteDone(store.fs.g, old(store.fs.Now()), store.fs.Now(), old(store.files), store.files, f.id, 0, s, 0, res)
  {
    StoreParts(store);
    LimitFits(store.fs);
    EmptyFile(store, f);
    ghost var v0, files, g := store.fs.Now(), store.files, store.fs.g;
    assert CanGrow(g, v0, [], |s|) && files[f.id] == [];
    hide FatDisk.Valid, FatDisk.Now, Geometry.Fits, Partition, Shaped, Room, OtherKept, Readable, Free,
         Outcome, FatContent.Within, Links, Encode, Splice, Base, WriteDone, Decode, Sealed, Appended, Store.Valid,
         Item.First, LeastFree, Store.Open, Stored;
    var start := AllocateFirst(store, f);
    FirstIs(f.item, start);
    if start == 0x1_0000_0000 - ENOMEM {
      ghost var fat := store.fs.Now().fat;
      StoreParts(store);
      res := WriteBeyond(store.fs, start % 0x1_0000, f.pos, s);
      SameStore(store, fat);
      return;
    }
    OpenNew(store, f, start);
    ghost var mid := f.item;
    res := WriteStarted(store, f, s, v0, files, start);
    StoredSince(store, f, v0.root, mid, old(f.item));
  }

  lemma StartsEmpty(store: Store, f: OpenFile)
    requires store.Valid() && store.Open(f)
    ensures f.item.First() == 0 <==> store.files[f.id] == []
    ensures store.files[f.id] == [] ==> f.pos == f.item.filesize == 0
  {
    if store.files[f.id] != [] {
      StoreParts(store);
      HeadIsTaken(store.fs.g, store.fs.Now(), store.files[f.id]);
    }
  }

  /** A chain has fewer clusters than the volume. */
  lemma {:induction false} ChainBound(ch: seq<nat>, limit: nat)
    requires limit >= 2 && (forall i :: 0 <= i < |ch| ==> 2 <= ch[i] < limit)
    requires forall i, j :: 0 <= i < j < |ch| ==> ch[i] != ch[j]
    ensures |ch| + 2 <= limit
    decreases limit
  {
    assert |ch| > 0 ==> 2 <= ch[0] < limit;
    if limit > 2 {
      if i: nat :| i < |ch| && ch[i] == limit - 1 {
        ChainBound(ch[..i] + ch[i + 1..], limit - 1);
      } else {
        ChainBound(ch, limit - 1);
      }
    }
  }

  /** An open file ends on the disk, and its positions are `int`s. */
  lemma PositionFits(store: Store, f: OpenFile)
    requires store.Valid() && store.Open(f)
    ensures f.pos <= f.item.filesize < INT_LIMIT
  {
    StoreParts(store);
    LimitFits(store.fs);
    var g, ch := store.fs.g, store.files[f.id];
    ChainBound(ch, g.limit);
    BaseOnDisk(g, store.fs.disk.data.Length, |ch|);
  }

  lemma BaseOnDisk(g: Geometry, length: nat, n: nat)
    requires g.Fits(length) && n + 2 <= g.limit
    ensures Base(g, n) < length
  {
    hide Geometry.DataStart;
    MulOrder(n, g.limit - 2, g.ClusterSize());
    Regrouped(g.limit - 2, g.perCluster);
  }

  lemma Regrouped(n: nat, p: nat)
    ensures n * p * SECTOR == n * (p * SECTOR)
  {
  }

  /** The write is possible at all: the file has a cluster or can get one. */
  ghost predicate CanStart(g: Geometry, v: Volume, ch: seq<nat>)
    requires g.limit <= |v.fat|
  {
    ch != [] || Free(v.fat, g.Usable()) != {}
  }

  /** fat16.c:1179-1205. */
  method WriteFile(store: Store, f: OpenFile, s: seq<Byte>) returns (res: int)
    requires store.Valid() && store.Open(f) && store.fs.g.perCluster > 0 && Shaped(store.fs.g, store.fs.Now())
    requires CanGrow(store.fs.g, store.fs.Now(), store.files[f.id], f.pos + |s|) && |s| < INT_LIMIT
    modifies store`files, f`item, f`pos, store.fs.tables, store.fs.clusters, store.fs.directory, store.fs.disk.data
    ensures store.Valid()
    // An empty file on a full volume is left with the error number as its first cluster.
    ensures !old(CanStart(store.fs.g, store.fs.Now(), store.files[f.id])) ==>
      && res == (if s == [] then 0 else -EIO) && f.item.First() == 0xFFFF_FFFD && store.fs.Now() == old(store.fs.Now())
    ensures old(CanStart(store.fs.g, store.fs.Now(), store.files[f.id])) ==>
      && store.Open(f) && Stored(store, f, old(store.fs.Now().root), old(f.item))
      && f.pos == old(f.pos) + (if res >= 0 then |s| else 0)
      && f.item.filesize == (if f.pos > old(f.item.filesize) then f.pos else old(f.item.filesize))
      && WriteDone(store.fs.g, old(store.fs.Now()), store.fs.Now(), old(store.files), store.files, f.id, old(f.pos), s,
                   old(f.item.filesize), res)
  {
    StoreParts(store);
    StartsEmpty(store, f);
    PositionFits(store, f);
    ghost var ch, end := store.files[f.id], f.pos + |s|;
    assert CanGrow(store.fs.g, store.fs.Now(), ch, end);
    hide FatDisk.Valid, FatDisk.Now, Geometry.Fits, Store.Valid, Store.Open, Stored, WriteDone, Free, Sealed, Room,
         Shaped, Item.First;
    if f.item.First() == 0 {
      assert CanGrow(store.fs.g, store.fs.Now(), [], |s|);
      res := WriteNew(store, f, s);
    } else {
      res := WriteLonger(store, f, s);
    }
  }

  /** fat16_write. */
  method FatWrite(store: Store, f: OpenFile, s: seq<Byte>, size: nat, nmemb: nat) returns (res: int)
    requires store.Valid() && store.Open(f) && store.fs.g.perCluster > 0 && Shaped(store.fs.g, store.fs.Now())
    requires |s| == size * nmemb < INT_LIMIT
    requires CanGrow(store.fs.g, store.fs.Now(), store.files[f.id], f.pos + |s|)
    modifies store`files, f`item, f`pos, store.fs.tables, store.fs.clusters, store.fs.directory, store.fs.disk.data
    ensures store.Valid()
    ensures !f.isFile || f.readOnly ==>
      && res == (if !f.isFile then -EINVARG else -ERDONLY) && store.fs.Now() == old(store.fs.Now())
      && store.files == old(store.files) && f.item == old(f.item) && f.pos == old(f.pos)
    ensures f.isFile && !f.readOnly && !old(CanStart(store.fs.g, store.fs.Now(), store.files[f.id])) ==>
      && res == (if s == [] then 0 else -EIO) && f.item.First() == 0xFFFF_FFFD && store.fs.Now() == old(store.fs.Now())
    ensures f.isFile && !f.readOnly && old(CanStart(store.fs.g, store.fs.Now(), store.files[f.id])) ==>
      && store.Open(f) && Stored(store, f, old(store.fs.Now().root), old(f.item))
      && f.pos == old(f.pos) + (if res >= 0 then |s| else 0)
      && (res >= 0 ==> res == if size > 0 then nmemb else 0)
      && WriteDone(store.fs.g, old(store.fs.Now()), store.fs.Now(), old(store.files), store.files, f.id, old(f.pos), s,
                   old(f.item.filesize), if res >= 0 then |s| else res)
  {
    if !f.isFile {
      return -EINVARG;
    }
    if f.readOnly {
      return -ERDONLY;
    }
    StoreParts(store);
    hide FatDisk.Valid, FatDisk.Now, Geometry.Fits, Store.Valid, Store.Open, Stored, WriteDone, CanStart, CanGrow,
         Shaped;
    ghost var v0, files, p, oldSize := store.fs.Now(), store.files, f.pos, f.item.filesize;
    var raw := WriteFile(store, f, s);
    DoneRaw(store.fs.g, v0, store.fs.Now(), files, store.files, f.id, p, s, oldSize, raw);
    res := raw;
    if raw >= 0 && size > 0 {
      ItemsOf(size, nmemb);
      res := raw / size;
    }
  }

  lemma DoneRaw(g: Geometry, v0: Volume, v: Volume, files: Files, after: Files, f: nat, p: nat, s: seq<Byte>, size: nat,
      res: int)
    requires g.perCluster > 0 && f in files
    ensures WriteDone(g, v0, v, files, after, f, p, s, size, res) && res >= 0 ==> res == |s|
  {
  }

  lemma ItemsOf(size: nat, nmemb: nat)
    requires size > 0
    ensures (size * nmemb) / size == nmemb
  {
    Quotient(size * nmemb, size, nmemb, 0);
  }

  // --------------------------------------------------------------- reading

  /** The product of two `uint32_t`. */
  function Product(size: nat, nmemb: nat): (n: nat)
    ensures n <= size * nmemb
    ensures size * nmemb < 0x1_0000_0000 ==> n == size * nmemb
  {
    (size * nmemb) % 0x1_0000_0000
  }

  /** fat16.c:859-866: how many whole items are left before the end of the file. */
  function ItemsLeft(filesize: nat, pos: nat, size: nat, nmemb: nat): nat
    requires size > 0
  {
    Min(Product(size, nmemb), if pos < filesize then filesize - pos else 0) / size
  }

  lemma ItemsFit(filesize: nat, pos: nat, size: nat, nmemb: nat)
    requires size > 0
    ensures ItemsLeft(filesize, pos, size, nmemb) * size <= size * nmemb
    ensures ItemsLeft(filesize, pos, size, nmemb) > 0 ==> pos + ItemsLeft(filesize, pos, size, nmemb) * size <= filesize
    ensures size * nmemb < 0x1_0000_0000 ==>
      (ItemsLeft(filesize, pos, size, nmemb) == nmemb <==> nmemb == 0 || pos + size * nmemb <= filesize)
  {
    hide Product;
    var available := if pos < filesize then filesize - pos else 0;
    var wanted := Product(size, nmemb);
    var total := Min(wanted, available);
    Divided(total, size);
    if wanted == size * nmemb {
      if size * nmemb <= available {
        ItemsOf(size, nmemb);
      } else if total / size >= nmemb {
        MulOrder(nmemb, total / size, size);
      }
      if nmemb > 0 {
        MulOrder(1, nmemb, size);
      }
    }
  }

  /** The bytes of `n` items. */
  function Total(n: nat, size: nat): nat { n * size }

  lemma NextItem(i: nat, n: nat, size: nat)
    requires i < n
    ensures Total(i + 1, size) == Total(i, size) + size <= Total(n, size)
  {
    MulOrder(i + 1, n, size);
  }

  /** fat16_read: the whole items that are left, from the position on. The chain need not
      be as long as the entry says. */
  method FatRead(store: Store, f: OpenFile, out: array<Byte>, size: nat, nmemb: nat) returns (res: int)
    requires store.Valid() && store.Named(f) && store.fs.g.perCluster > 0
    requires size > 0 && out != store.fs.disk.data && size * nmemb <= out.Length
    requires FatContent.Within(store.fs.Now().data, store.files[f.id])
    modifies f`pos, out, store.fs.tables, store.fs.clusters
    ensures store.Valid() && store.Named(f) && (old(store.Open(f)) ==> store.Open(f))
    ensures ReadDone(store.fs.g, store.fs.Now(), store.files[f.id], old(f.pos),
                     Total(ItemsLeft(f.item.filesize, old(f.pos), size, nmemb), size), old(out[..]), out[..], f.pos,
                       res >= 0)
    ensures res >= 0 ==> res == ItemsLeft(f.item.filesize, old(f.pos), size, nmemb)
  {
    StoreParts(store);
    NamedParts(store, f);
    ItemsFit(f.item.filesize, f.pos, size, nmemb);
    var items := ItemsLeft(f.item.filesize, f.pos, size, nmemb);
    hide FatDisk.Valid, FatDisk.Now, Geometry.Fits, Links, Partition, Content, HasRead, Readable, ItemsLeft,
         Store.Valid, Store.Named, FatContent.Within;
    if items == 0 {
      ReadNothing(Content(store.fs.Now().data, store.files[f.id]), f.pos, out[..], 0);
      return 0;
    }
    assert Total(items, size) == items * size;
    hide Total;
    assert OnChain(store.fs, f.item.First(), store.files[f.id]);
    res := ReadItems(store.fs, f.item.First(), f.pos, out, size, items, store.files[f.id]);
    if res >= 0 {
      f.pos := f.pos + items * size;
      res := items;
    }
  }

  lemma NamedParts(store: Store, f: OpenFile)
    requires store.Named(f)
    ensures f.id in store.files && (f.item.filesize > 0 ==> store.files[f.id] != [])
    ensures store.files[f.id] != [] ==> f.item.First() == store.files[f.id][0]
  {
  }

  lemma HeadIsFirst(store: Store, f: OpenFile)
    requires store.Open(f) && store.files[f.id] != []
    ensures f.item.First() == store.files[f.id][0]
  {
  }

  /** A read of `n` bytes at `p`: it gives the bytes of the file and moves on, unless the
      last of them cannot be reached. */
  ghost predicate ReadDone(g: Geometry, v: Volume, ch: seq<nat>, p: nat, n: nat, was: seq<Byte>, now: seq<Byte>,
      pos: nat, ok: bool)
    requires g.perCluster > 0 && FatContent.Within(v.data, ch)
  {
    && (ok <==> Reaches(g, ch, p, n)) && pos == (if ok then p + n else p)
    && (ok ==> HasRead(Content(v.data, ch), p, n, was, now, 0))
  }

  lemma ReadBoth(content: seq<Byte>, p: nat, n: nat, was: seq<Byte>, mid: seq<Byte>, now: seq<Byte>, m: nat)
    requires m > 0 && HasRead(content, p, n, was, mid, 0) && HasRead(content, p + n, m, mid, now, n) && n + m <= |was|
    ensures HasRead(content, p, n + m, was, now, 0)
  {
    ReadMore(content, p, n, was, mid, 0, m);
  }

  /** The last of `n` bytes from `p` on can be reached. */
  ghost predicate Reaches(g: Geometry, ch: seq<nat>, p: nat, n: nat)
    requires g.perCluster > 0
  {
    n == 0 || Readable(g, ch, p + n - 1)
  }

  lemma FailsBefore(g: Geometry, ch: seq<nat>, p: nat, n: nat, m: nat)
    requires g.perCluster > 0 && n <= m && Reaches(g, ch, p, m)
    ensures Reaches(g, ch, p, n)
  {
    if !Reaches(g, ch, p, n) {
      FailsOn(g, ch, p + n - 1, p + m - 1);
    }
  }

  /** `start` is the head of the whole chain `ch`. */
  ghost predicate OnChain(fs: FatDisk, start: nat, ch: seq<nat>)
    reads fs.disk.data
  {
    && fs.Valid() && fs.g.perCluster > 0 && Shaped(fs.g, fs.Now()) && ch != [] && start == ch[0]
    && Links(fs.Now().fat, fs.g.limit, ch) && FatContent.Within(fs.Now().data, ch)
  }

  /** `n` bytes from `p` on have been read. */
  ghost predicate ReadUpTo(fs: FatDisk, ch: seq<nat>, p: nat, n: nat, was: seq<Byte>, out: array<Byte>)
    reads fs.disk.data, out
  {
    && fs.g.perCluster > 0 && fs.g.Fits(fs.disk.data.Length) && FatContent.Within(fs.Now().data, ch)
    && out.Length == |was| && Reaches(fs.g, ch, p, n) && HasRead(Content(fs.Now().data, ch), p, n, was, out[..], 0)
  }

  /** fat16.c:872-881. */
  method ReadItems(fs: FatDisk, start: nat, pos: nat, out: array<Byte>, size: nat, items: nat, ghost ch: seq<nat>)
    returns (res: int)
    requires OnChain(fs, start, ch) && fs.g.perCluster > 0 && out != fs.disk.data && size > 0
    requires Total(items, size) <= out.Length
    modifies out, fs.tables, fs.clusters
    ensures OnChain(fs, start, ch)
    ensures res < 0 ==> !Reaches(fs.g, ch, pos, Total(items, size))
    ensures res >= 0 ==> ReadUpTo(fs, ch, pos, Total(items, size), old(out[..]), out)
  {
    hide *;
    ghost var was, total := out[..], Total(items, size);
    ReadUpToNothing(fs, start, ch, pos, out, size);
    var i: nat, at: nat := 0, 0;
    while i < items
      invariant i <= items && at == Total(i, size) <= total
      invariant OnChain(fs, start, ch) && ReadUpTo(fs, ch, pos, at, was, out)
    {
      NextItem(i, items, size);
      res := ReadItem(fs, start, pos, out, size, at, total, was, ch);
      if res < 0 {
        return;
      }
      i, at := i + 1, at + size;
    }
    res := 0;
  }

  lemma ReadUpToNothing(fs: FatDisk, start: nat, ch: seq<nat>, p: nat, out: array<Byte>, size: nat)
    requires OnChain(fs, start, ch)
    ensures ReadUpTo(fs, ch, p, 0, out[..], out) && Total(0, size) == 0
  {
    ReadNothing(Content(fs.Now().data, ch), p, out[..], 0);
  }

  lemma LaterFails(g: Geometry, ch: seq<nat>, p: nat, n: nat, m: nat)
    requires g.perCluster > 0 && n <= m && !Reaches(g, ch, p, n)
    ensures !Reaches(g, ch, p, m)
  {
    if Reaches(g, ch, p, m) {
      FailsBefore(g, ch, p, n, m);
    }
  }

  method ReadItem(fs: FatDisk, start: nat, pos: nat, out: array<Byte>, size: nat, at: nat, ghost total: nat,
      ghost was: seq<Byte>, ghost ch: seq<nat>) returns (res: int)
    requires OnChain(fs, start, ch) && fs.g.perCluster > 0 && out != fs.disk.data && size > 0
    requires at + size <= total <= out.Length
    requires ReadUpTo(fs, ch, pos, at, was, out)
    modifies out, fs.tables, fs.clusters
    ensures OnChain(fs, start, ch)
    ensures res < 0 ==> !Reaches(fs.g, ch, pos, total)
    ensures res >= 0 ==> ReadUpTo(fs, ch, pos, at + size, was, out)
  {
    hide FatDisk.Valid, FatDisk.Now, Geometry.Fits, Links, FatContent.Within, Content, HasRead, Ahead, Splice,
         Located, Shaped;
    ghost var content, mid, done := Content(fs.Now().data, ch), out[..], 0;
    res, done := ReadInternal(fs, start, pos + at, size, out, at, ch);
    if res >= 0 {
      ReadBoth(content, pos, at, was, mid, out[..], size);
    } else {
      LaterFails(fs.g, ch, pos, at + size, total);
    }
  }

  // ------------------------------------------------------------ truncating

  /** The clusters that `size` bytes need. */
  function Needed(g: Geometry, size: nat): nat
    requires g.perCluster > 0
  {
    (size + g.ClusterSize() - 1) / g.ClusterSize()
  }

  lemma NeededFits(g: Geometry, size: nat, n: nat)
    requires g.perCluster > 0 && size <= Base(g, n)
    ensures Needed(g, size) <= n && size <= Base(g, Needed(g, size)) && (size > 0 <==> Needed(g, size) > 0)
    ensures size > 0 ==> Base(g, Needed(g, size) - 1) < size
  {
    var cs, k := g.ClusterSize(), Needed(g, size);
    Divided(size + cs - 1, cs);
    if k > n {
      MulOrder(n + 1, k, cs);
      NextBase(g, n);
    }
    if k > 0 {
      NextBase(g, k - 1);
    }
  }

  /** fat16.c:1250-1258. */
  method FindCut(fs: FatDisk, start: nat, needed: nat, ghost ch: seq<nat>) returns (cluster: nat)
    requires fs.Valid() && Links(fs.Now().fat, fs.g.limit, ch) && ch != [] && start == ch[0] && 0 < needed <= |ch|
    modifies fs.tables
    ensures cluster == ch[needed - 1]
  {
    hide FatDisk.Valid, FatDisk.Raw, FatDisk.Now, Geometry.Fits;
    LimitFits(fs);
    cluster := start;
    var i := 1;
    while i < needed && cluster >= 2
      invariant 1 <= i <= needed && cluster == ch[i - 1]
    {
      EntryOnDisk(fs, cluster);
      assert LinkAt(fs.Now().fat, ch, i - 1);
      var next := fs.GetFatEntry(cluster);
      RawIsEntry(fs, cluster);
      cluster := next;
      i := i + 1;
    }
  }

  /** fat16.c:1260-1267. */
  method CutBehind(fs: FatDisk, cluster: nat, ghost ch: seq<nat>, ghost n: nat)
    requires fs.Valid() && Links(fs.Now().fat, fs.g.limit, ch)
    requires 0 < n <= |ch| && cluster == ch[n - 1]
    modifies fs.tables, fs.disk.data
    ensures fs.Valid() && fs.g.limit <= |old(fs.Now().fat)|
    ensures fs.Now() == old(fs.Now()).(fat := CutTable(old(fs.Now().fat), fs.g.limit, ch, n))
  {
    hide FatDisk.Valid, FatDisk.Raw, FatDisk.Now, Geometry.Fits, Freed, StaysInside;
    LimitFits(fs);
    EntryOnDisk(fs, cluster);
    assert LinkAt(fs.Now().fat, ch, n - 1);
    if cluster >= 2 {
      var next := fs.GetFatEntry(cluster);
      RawIsEntry(fs, cluster);
      if next >= 2 && next < END {
        assert n < |ch| && next == ch[n];
        ChainInside(fs.Now().fat, fs.g.limit, ch, n);
        var _ := FreeClusterChain(fs, next);
      }
      var _ := fs.SetFatEntry(cluster, LAST);
    }
  }

  /** fat16.c:1237-1267: the table part of a truncation. */
  method CutTo(fs: FatDisk, start: nat, size: nat, ghost ch: seq<nat>)
    requires fs.Valid() && fs.g.perCluster > 0
    requires Links(fs.Now().fat, fs.g.limit, ch)
    requires start == (if ch == [] then 0 else ch[0]) && size <= Base(fs.g, |ch|)
    modifies fs.tables, fs.disk.data
    ensures fs.Valid() && Trimmed(fs.g, old(fs.Now()), fs.Now(), ch, size)
  {
    ghost var n := Needed(fs.g, size);
    LimitFits(fs);
    NeededFits(fs.g, size, |ch|);
    hide FatDisk.Valid, FatDisk.Now, Geometry.Fits, Freed, StaysInside;
    if size == 0 {
      if ch != [] {
        ChainInside(fs.Now().fat, fs.g.limit, ch, 0);
      } else {
        NoneInside(fs.Now().fat, fs.g.limit, 0);
        FreedNothing(fs.Now().fat, fs.g.limit, 0);
      }
      var _ := FreeClusterChain(fs, start);
    } else {
      var clusterSize := fs.g.perCluster * SECTOR;
      var needed := (size + clusterSize - 1) / clusterSize;
      assert needed == n;
      hide Needed, Links;
      var cluster := FindCut(fs, start, needed, ch);
      CutBehind(fs, cluster, ch, n);
    }
  }

  /** What truncating leaves of the file's bytes: the first `size` bytes of its clusters. */
  lemma CutBytes(g: Geometry, v: Volume, ch: seq<nat>, size: nat)
    requires Shaped(g, v) && g.perCluster > 0 && FatContent.Within(v.data, ch) && size <= Base(g, |ch|)
    ensures Needed(g, size) <= |ch| && FatContent.Within(v.data, ch[..Needed(g, size)])
    ensures size <= |Content(v.data, ch)| && size <= |Content(v.data, ch[..Needed(g, size)])|
    ensures Bytes(v, ch[..Needed(g, size)], size) == Bytes(v, ch, size)
  {
    NeededFits(g, size, |ch|);
    var n := Needed(g, size);
    ContentLength(v.data, ch, g.ClusterSize());
    ContentCut(v.data, ch, g.ClusterSize(), n);
    ContentLength(v.data, ch[..n], g.ClusterSize());
    assert n * g.ClusterSize() == Base(g, n);
  }

  /** fat16.c:1233-1274. */
  method CutFile(store: Store, f: OpenFile, size: nat)
    requires store.Valid() && store.Open(f) && store.fs.g.perCluster > 0 && size <= 0xFFFF_FFFF
    requires size <= Base(store.fs.g, |store.files[f.id]|)
    modifies store`files, f`item, f`pos, store.fs.tables, store.fs.disk.data
    ensures store.Valid() && store.Open(f) && f.pos == (if old(f.pos) > size then size else old(f.pos))
    ensures f.item == CutItem(old(f.item), size)
    ensures Trimmed(store.fs.g, old(store.fs.Now()), store.fs.Now(), old(store.files[f.id]), size)
    ensures store.files == old(store.files)[f.id := old(store.files[f.id])[..Needed(store.fs.g, size)]]
  {
    CutFacts(store, f, size);
    ghost var files, ch := store.files, store.files[f.id];
    ghost var n := Needed(store.fs.g, size);
    StaysOpen(store, f, ch, size);
    hide *;
    CutTo(store.fs, f.item.First(), size, ch);
    store.files := files[f.id := ch[..n]];
    TrimmedFat(store.fs.g, old(store.fs.Now()), store.fs.Now(), ch, size);
    SameStore(store, store.fs.Now().fat);
    CutEntry(f, size);
    OpenIs(store, f);
  }

  /** fat16.c:1240-1243 and 1269-1272: the entry and the position. */
  method CutEntry(f: OpenFile, size: nat)
    modifies f`item, f`pos
    ensures f.item == CutItem(old(f.item), size) && f.item.filesize == size
    ensures f.pos == if old(f.pos) > size then size else old(f.pos)
  {
    if size == 0 {
      f.item := f.item.(low := 0, high := 0, filesize := 0);
      f.pos := 0;
      return;
    }
    f.item := f.item.(filesize := size);
    if f.pos > size {
      f.pos := size;
    }
  }

  lemma TrimmedFat(g: Geometry, v0: Volume, v: Volume, ch: seq<nat>, size: nat)
    requires g.perCluster > 0 && Trimmed(g, v0, v, ch, size)
    ensures v.fat == CutTable(v0.fat, g.limit, ch, Needed(g, size)) && |v.fat| == |v0.fat| && g.limit <= |v0.fat|
  {
  }

  /** What cutting a file of the store needs and leaves. */
  lemma CutFacts(store: Store, f: OpenFile, size: nat)
    requires store.Valid() && store.Open(f) && store.fs.g.perCluster > 0
    requires size <= Base(store.fs.g, |store.files[f.id]|)
    ensures store.fs.Valid() && store.fs.g.limit <= |store.fs.Now().fat|
    ensures var ch := store.files[f.id];
            && f.item.First() == (if ch == [] then 0 else ch[0])
            && Needed(store.fs.g, size) <= |ch| && Links(store.fs.Now().fat, store.fs.g.limit, ch)
            && var cut := CutTable(store.fs.Now().fat, store.fs.g.limit, ch, Needed(store.fs.g, size));
               Partition(cut, store.fs.g.limit, store.files[f.id := ch[..Needed(store.fs.g, size)]])
  {
    StoreParts(store);
    StartsEmpty(store, f);
    LimitFits(store.fs);
    var ch := store.files[f.id];
    NeededFits(store.fs.g, size, |ch|);
    CutKeeps(store.fs.Now().fat, store.fs.g.limit, store.files, f.id, Needed(store.fs.g, size));
    hide FatDisk.Valid, FatDisk.Now, Geometry.Fits, Links, Partition, CutTable, Needed, Base, Store.Valid;
    if ch != [] {
      HeadIsFirst(store, f);
    }
  }

  /** The kept clusters hold `size` bytes and begin where the file began. */
  lemma StaysOpen(store: Store, f: OpenFile, ch: seq<nat>, size: nat)
    requires store.Open(f) && ch == store.files[f.id] && store.fs.g.perCluster > 0 && size <= Base(store.fs.g, |ch|)
    requires size <= 0xFFFF_FFFF
    ensures Needed(store.fs.g, size) <= |ch| && size <= Base(store.fs.g, Needed(store.fs.g, size))
    ensures f.id in store.files && (f.slot + 1) * ITEM <= store.fs.g.rootEntries * 32
    ensures var cut := CutItem(f.item, size); cut.Valid() && Head(cut, ch[..Needed(store.fs.g, size)])
  {
    NeededFits(store.fs.g, size, |ch|);
  }

  /** The entry of a file cut to `size` bytes. */
  function CutItem(item: Item, size: nat): Item {
    item.(filesize := size, low := if size == 0 then 0 else item.low, high := if size == 0 then 0 else item.high)
  }

  lemma OpenIs(store: Store, f: OpenFile)
    requires f.id in store.files && f.item.Valid() && Head(f.item, store.files[f.id])
    requires (f.slot + 1) * ITEM <= store.fs.g.rootEntries * 32
    requires f.pos <= f.item.filesize <= Base(store.fs.g, |store.files[f.id]|)
    ensures store.Open(f)
  {
  }

  /** fat16_truncate within the allocation: the clusters needed stay, the others become
      free, and the size is only changed in the descriptor's copy of the entry. */
  method Truncate(store: Store, f: OpenFile, size: nat) returns (res: int)
    requires store.Valid() && store.Open(f) && store.fs.g.perCluster > 0 && size <= 0xFFFF_FFFF
    requires size <= Base(store.fs.g, |store.files[f.id]|)
    modifies store`files, f`item, f`pos, store.fs.tables, store.fs.disk.data
    ensures store.Valid() && store.Open(f)
    ensures !f.isFile || f.readOnly ==>
      && res == (if !f.isFile then -EINVARG else -ERDONLY) && store.fs.Now() == old(store.fs.Now())
      && store.files == old(store.files) && f.item == old(f.item) && f.pos == old(f.pos)
    ensures f.isFile && !f.readOnly ==>
      && res == 0 && f.pos == (if old(f.pos) > size then size else old(f.pos))
      && f.item == CutItem(old(f.item), size)
      && Trimmed(store.fs.g, old(store.fs.Now()), store.fs.Now(), old(store.files[f.id]), size)
      && store.files == old(store.files)[f.id := old(store.files[f.id])[..Needed(store.fs.g, size)]]
  {
    if !f.isFile {
      return -EINVARG;
    }
    if f.readOnly {
      return -ERDONLY;
    }
    CutFile(store, f, size);
    return 0;
  }

  /** Truncating `ch` to `size` changed the table of the volume, and nothing else. */
  ghost predicate Trimmed(g: Geometry, v0: Volume, v: Volume, ch: seq<nat>, size: nat)
    requires g.perCluster > 0
  {
    && g.limit <= |v0.fat| && Links(v0.fat, g.limit, ch) && Needed(g, size) <= |ch|
    && v == v0.(fat := CutTable(v0.fat, g.limit, ch, Needed(g, size)))
  }

  /** Opening the file again: a new descriptor with the entry as it is on the disk. */
  method Reopen(store: Store, f: OpenFile) returns (again: OpenFile)
    requires store.Valid() && (f.slot + 1) * ITEM <= store.fs.g.rootEntries * 32
    modifies store.fs.directory
    ensures store.Valid() && fresh(again) && again.id == f.id && again.isFile == f.isFile && again.slot == f.slot
    ensures again.item == OnDisk(store.fs, f.slot) && again.pos == 0
  {
    StoreParts(store);
    hide FatDisk.Valid, FatDisk.Now, Geometry.Fits, Partition, Decode;
    var bytes := store.fs.ReadRoot(f.slot * ITEM, ITEM);
    again := new OpenFile(f.id, f.isFile, f.readOnly, f.slot, Decode(bytes[..]));
  }

  /** Truncating changes neither the root directory nor the data, and frees the clusters
      that are not needed. */
  lemma TrimmedFacts(g: Geometry, v0: Volume, v: Volume, ch: seq<nat>, size: nat)
    requires Shaped(g, v0) && g.perCluster > 0 && Trimmed(g, v0, v, ch, size)
    ensures v.root == v0.root && v.data == v0.data && |v.fat| == |v0.fat|
    ensures Needed(g, size) <= |ch|
    ensures size == 0 && ch != [] ==> ch[0] < |v.fat| && v.fat[ch[0]] == 0
  {
    NeededFits(g, 0, 0);
    CutIs(v0.fat, g.limit, ch, Needed(g, size));
    if size == 0 && ch != [] {
      assert ch[0..] == ch && ch[0] in ch;
    }
  }

  /** The bytes in the kept clusters are those that were there. */
  lemma KeptBytes(g: Geometry, v0: Volume, v: Volume, ch: seq<nat>, n: nat, size: nat)
    requires Shaped(g, v0) && FatContent.Within(v0.data, ch) && v.data == v0.data && n <= |ch|
    ensures FatContent.Within(v.data, ch[..n])
    ensures |Content(v0.data, ch)| == Base(g, |ch|) && |Content(v.data, ch[..n])| == Base(g, n)
    ensures Content(v.data, ch[..n]) <= Content(v0.data, ch)
    ensures size <= Base(g, n) ==> size <= |Content(v0.data, ch)| && Bytes(v, ch[..n], size) == Bytes(v0, ch, size)
  {
    ContentLength(v0.data, ch, g.ClusterSize());
    ContentLength(v0.data, ch[..n], g.ClusterSize());
    ContentPrefix(v0.data, ch[..n], ch);
  }

  /** What the entry that is still on the disk is for the file after a truncation of `ch` to
      `size`. */
  lemma EntryLeft(store: Store, again: OpenFile, item: Item, ch: seq<nat>, size: nat)
    requires store.fs.g.perCluster > 0 && again.id in store.files && again.pos == 0 && again.item == item
    requires item.Valid() && Head(item, ch) && (again.slot + 1) * ITEM <= store.fs.g.rootEntries * 32
    requires Needed(store.fs.g, size) <= |ch| && store.files[again.id] == ch[..Needed(store.fs.g, size)]
    requires ch == [] ==> item.filesize == 0
    requires forall i :: 0 <= i < |ch| ==> ch[i] >= 2
    ensures size > 0 || ch == [] ==> store.Named(again)
    ensures store.Open(again) <==>
            (size > 0 || ch == []) && item.filesize <= Base(store.fs.g, Needed(store.fs.g, size))
    ensures CutItem(item, size) == item <==> size == item.filesize && (size > 0 || ch == [])
  {
    NeededFits(store.fs.g, size, Needed(store.fs.g, size));
  }

  /** A truncation and what the file is when it is opened again: the entry on the disk is
      the old one. It is the descriptor's entry exactly when neither size nor first cluster
      has changed. It names the cut chain unless all clusters were freed, and the file is a
      sound one exactly when its old size fits the clusters that were kept; then it still
      holds its old bytes. Where all were freed its first cluster is free. */
  method TruncateThenReopen(store: Store, f: OpenFile, size: nat, ghost bytes: seq<Byte>) returns (again: OpenFile)
    requires store.Valid() && store.Open(f) && store.fs.g.perCluster > 0 && size <= 0xFFFF_FFFF
    requires size <= Base(store.fs.g, |store.files[f.id]|) && f.isFile && !f.readOnly
    requires OnDisk(store.fs, f.slot) == f.item && FileHolds(store, f, bytes)
    modifies store`files, f`item, f`pos, store.fs.tables, store.fs.directory, store.fs.disk.data
    ensures store.Valid() && store.Open(f) && fresh(again) && again.id == f.id && again.isFile && again.pos == 0
    ensures Needed(store.fs.g, size) <= |old(store.files[f.id])|
    ensures store.files == old(store.files)[f.id := old(store.files[f.id])[..Needed(store.fs.g, size)]]
    ensures again.item == old(f.item) && f.item == CutItem(old(f.item), size)
    ensures again.item == f.item <==> size == old(f.item.filesize) && (size > 0 || old(store.files[f.id]) == [])
    ensures size > 0 || old(store.files[f.id]) == [] ==> store.Named(again)
    ensures store.Open(again) <==>
            (size > 0 || old(store.files[f.id]) == [])
            && old(f.item.filesize) <= Base(store.fs.g, Needed(store.fs.g, size))
    ensures store.Open(again) ==> FileHolds(store, again, bytes)
    ensures Kept(store, f.id, Needed(store.fs.g, size), bytes)
    ensures size == 0 && old(store.files[f.id]) != [] ==> Dangling(store, again.item)
  {
    hide *;
    OpenParts(store, f);
    HoldsSize(store, f, bytes);
    ghost var v0, ch, item, n := store.fs.Now(), store.files[f.id], f.item, Needed(store.fs.g, size);
    OnDiskIs(store.fs, f.slot);
    var _ := Truncate(store, f, size);
    StoreParts(store);
    TrimmedFacts(store.fs.g, v0, store.fs.Now(), ch, size);
    OnDiskIs(store.fs, f.slot);
    again := Reopen(store, f);
    EntryLeft(store, again, item, ch, size);
    KeptHolds(store, again, v0, ch, n, bytes);
    if size == 0 && ch != [] {
      FreedHead(store, item, ch);
    }
  }

  lemma OpenParts(store: Store, f: OpenFile)
    requires store.Valid() && store.Open(f)
    ensures f.id in store.files && f.item.Valid() && Head(f.item, store.files[f.id])
    ensures (f.slot + 1) * ITEM <= store.fs.g.rootEntries * 32 && store.fs.g.perCluster > 0
    ensures store.files[f.id] == [] ==> f.item.filesize == 0
    ensures forall i :: 0 <= i < |store.files[f.id]| ==> store.files[f.id][i] >= 2
    ensures store.fs.Valid() && store.fs.g.Fits(store.fs.disk.data.Length) && Shaped(store.fs.g, store.fs.Now())
    ensures FatContent.Within(store.fs.Now().data, store.files[f.id])
  {
    StoreParts(store);
  }

  /** The entry of a slot in a root directory. */
  function EntryIn(root: seq<Byte>, slot: nat): Item
    requires (slot + 1) * ITEM <= |root|
  {
    Decode(root[slot * ITEM..slot * ITEM + ITEM])
  }

  lemma OnDiskIs(fs: FatDisk, slot: nat)
    requires fs.g.Fits(fs.disk.data.Length) && (slot + 1) * ITEM <= fs.g.rootEntries * 32
    ensures (slot + 1) * ITEM <= |fs.Now().root| && OnDisk(fs, slot) == EntryIn(fs.Now().root, slot)
  {
  }

  /** The file's first `n` clusters, which are its chain now, begin like `bytes`. */
  ghost predicate Kept(store: Store, f: nat, n: nat, bytes: seq<Byte>)
    reads store, store.fs.disk.data
  {
    && store.fs.g.Fits(store.fs.disk.data.Length) && f in store.files
    && FatContent.Within(store.fs.Now().data, store.files[f])
    && |Content(store.fs.Now().data, store.files[f])| == Base(store.fs.g, n)
    && forall i :: 0 <= i < |bytes| && i < Base(store.fs.g, n) ==>
      Content(store.fs.Now().data, store.files[f])[i] == bytes[i]
  }

  lemma KeptHolds(store: Store, again: OpenFile, v0: Volume, ch: seq<nat>, n: nat, bytes: seq<Byte>)
    requires store.fs.g.Fits(store.fs.disk.data.Length) && again.id in store.files && n <= |ch|
    requires store.files[again.id] == ch[..n] && store.fs.Now().data == v0.data && Shaped(store.fs.g, v0)
    requires Holds(v0, ch, again.item.filesize, bytes)
    ensures Kept(store, again.id, n, bytes)
    ensures again.item.filesize <= Base(store.fs.g, n) ==> FileHolds(store, again, bytes)
  {
    KeptBytes(store.fs.g, v0, store.fs.Now(), ch, n, again.item.filesize);
    hide Content, FatDisk.Now, Geometry.Fits, Shaped, FatContent.Within, Base;
  }

  /** The entry names a cluster that is free and belongs to no file. */
  ghost predicate Dangling(store: Store, item: Item)
    reads store, store.fs.disk.data
  {
    && store.fs.g.Fits(store.fs.disk.data.Length) && item.First() < |store.fs.Now().fat|
    && store.fs.Now().fat[item.First()] == 0 && forall o :: o in store.files ==> item.First() !in store.files[o]
  }

  lemma FreedHead(store: Store, item: Item, ch: seq<nat>)
    requires store.Valid() && ch != [] && Head(item, ch) && ch[0] < |store.fs.Now().fat|
    requires store.fs.Now().fat[ch[0]] == 0
    ensures Dangling(store, item)
  {
    StoreParts(store);
    forall o | o in store.files
      ensures ch[0] !in store.files[o]
    {
      if ch[0] in store.files[o] {
        TakenOf(store.fs.Now().fat, store.fs.g.limit, store.files[o], ch[0]);
      }
    }
  }

  /** A position can be reached exactly when it lies inside the allocated chain and the walk
      to it does not meet cluster 4087: the end of the chain itself cannot. */
  lemma ReadableIff(g: Geometry, ch: seq<nat>, p: nat)
    requires g.perCluster > 0 && forall i :: 0 <= i < |ch| ==> ch[i] >= 2
    ensures Readable(g, ch, p) <==> p < Base(g, |ch|) && !MeetsBad(ch, 0, Ahead(g, p))
  {
    Divided(p, g.ClusterSize());
    var j := Ahead(g, p);
    NextBase(g, j);
    Longer(g, j + 1, |ch|);
    Longer(g, |ch|, j);
    assert Base(g, j) <= p < Base(g, j + 1);
  }

  datatype SeekMode = Set | Current | End | OtherMode

  /** fat16_seek. The offset itself is compared with the size in every mode, so SEEK_CUR
      can leave the file. */
  method FatSeek(f: OpenFile, offset: nat, mode: SeekMode) returns (res: int)
    requires offset <= 0xFFFF_FFFF
    modifies f`pos
    ensures res == if !f.isFile then -EINVARG else if offset >= f.item.filesize then -EIO
                   else if mode == End then -EUNIMP else if mode == OtherMode then -EINVARG else 0
    ensures f.pos == if res != 0 then old(f.pos) else if mode == Set then offset
                     else (old(f.pos) + offset) % 0x1_0000_0000
  {
    if !f.isFile {
      return -EINVARG;
    }
    if offset >= f.item.filesize {
      return -EIO;
    }
    res := 0;
    match mode {
      case Set => f.pos := offset;
      case End => res := -EUNIMP;
      case Current => f.pos := (f.pos + offset) % 0x1_0000_0000;
      case OtherMode => res := -EINVARG;
    }
  }

  /** A seek that succeeds on an open file leaves it open exactly when it was from the start
      or the sum stays within the file. */
  method SeekOpen(store: Store, f: OpenFile, offset: nat, mode: SeekMode) returns (res: int)
    requires store.Valid() && store.Open(f) && offset <= 0xFFFF_FFFF
    modifies f`pos
    ensures store.Valid() && (res != 0 ==> f.pos == old(f.pos) && store.Open(f))
    ensures res == 0 ==> (store.Open(f) <==> mode == Set || old(f.pos) + offset <= f.item.filesize)
  {
    PositionFits(store, f);
    hide Store.Entered, Store.Valid;
    res := FatSeek(f, offset, mode);
  }

  lemma ReadGives(content: seq<Byte>, size: nat, q: nat, n: nat, was: seq<Byte>, now: seq<Byte>)
    requires |was| == n > 0 && q + n <= size <= |content| && HasRead(content, q, n, was, now, 0)
    ensures now == content[..size][q..q + n]
  {
  }

  lemma AllLeft(filesize: nat, q: nat, n: nat)
    requires q + n <= filesize < INT_LIMIT
    ensures Total(ItemsLeft(filesize, q, 1, n), 1) == n == ItemsLeft(filesize, q, 1, n)
  {
  }

  /** The file with this chain and size holds these bytes. */
  ghost predicate Holds(v: Volume, ch: seq<nat>, size: nat, bytes: seq<Byte>) {
    && FatContent.Within(v.data, ch) && size <= |Content(v.data, ch)|
    && bytes == Bytes(v, ch, size)
  }

  /** The open file holds these bytes. */
  ghost predicate FileHolds(store: Store, f: OpenFile, bytes: seq<Byte>)
    reads store, f, store.fs.disk.data
  {
    && store.fs.g.Fits(store.fs.disk.data.Length) && f.id in store.files
    && Holds(store.fs.Now(), store.files[f.id], f.item.filesize, bytes)
  }

  /** Reading a range of the file, after a seek. */
  method ReadRange(store: Store, f: OpenFile, q: nat, n: nat, out: array<Byte>, ghost bytes: seq<Byte>)
    returns (res: int)
    requires store.Valid() && store.Open(f) && store.fs.g.perCluster > 0 && f.isFile
    requires out != store.fs.disk.data && out.Length == n > 0 && q + n <= f.item.filesize
    requires FileHolds(store, f, bytes)
    modifies f`pos, out, store.fs.tables, store.fs.clusters
    ensures store.Valid() && store.Open(f) && |bytes| == f.item.filesize
    ensures res >= 0 <==> Readable(store.fs.g, store.files[f.id], q + n - 1)
    ensures res >= 0 ==> res == n && out[..] == bytes[q..q + n]
  {
    StoreParts(store);
    ghost var content, was, size := Content(store.fs.Now().data, store.files[f.id]), out[..], f.item.filesize;
    PositionFits(store, f);
    AllLeft(size, q, n);
    assert bytes == content[..size];
    hide FatDisk.Valid, FatDisk.Now, Geometry.Fits, Store.Valid, Content, HasRead, ItemsLeft, FatContent.Within,
         Readable, Total;
    var _ := FatSeek(f, q, Set);
    res := FatRead(store, f, out, 1, n);
    if res >= 0 {
      ReadGives(content, size, q, n, was, out[..]);
    }
  }

  /** Reading a range of the old file after a truncation to at least one byte and opening
      the file again: it succeeds exactly when the kept clusters reach that far, and then
      gives the old bytes, also those behind the new end. */
  method TruncateThenRead(store: Store, f: OpenFile, size: nat, q: nat, n: nat, out: array<Byte>,
      ghost bytes: seq<Byte>) returns (res: int)
    requires store.Valid() && store.Open(f) && store.fs.g.perCluster > 0 && 0 < size <= 0xFFFF_FFFF
    requires size <= Base(store.fs.g, |store.files[f.id]|) && f.isFile && !f.readOnly
    requires OnDisk(store.fs, f.slot) == f.item && FileHolds(store, f, bytes)
    requires out != store.fs.disk.data && out.Length == n > 0 && q + n <= |bytes|
    modifies store`files, f`item, f`pos, out, store.fs.tables, store.fs.clusters, store.fs.directory, store.fs.disk.data
    ensures store.Valid() && store.Open(f)
    ensures res >= 0 <==> Readable(store.fs.g, store.files[f.id], q + n - 1)
    ensures res >= 0 ==> res == n && out[..] == bytes[q..q + n]
  {
    hide *;
    SizeFits(store, f, bytes);
    ghost var g, kept, was, oldSize := store.fs.g, Needed(store.fs.g, size), out[..], f.item.filesize;
    var again := TruncateThenReopen(store, f, size, bytes);
    KeptParts(store, f.id, kept, bytes);
    var _ := FatSeek(again, q, Set);
    AllLeft(oldSize, q, n);
    res := FatRead(store, again, out, 1, n);
    ReadBack(g, store.fs.Now(), store.files[f.id], q, n, was, out[..], again.pos, res >= 0, kept, bytes);
  }

  lemma SizeFits(store: Store, f: OpenFile, bytes: seq<Byte>)
    requires store.Valid() && store.Open(f) && FileHolds(store, f, bytes)
    ensures |bytes| == f.item.filesize < INT_LIMIT && INT_LIMIT <= 0xFFFF_FFFF && f.id in store.files
  {
    HoldsSize(store, f, bytes);
    PositionFits(store, f);
  }

  lemma KeptParts(store: Store, f: nat, n: nat, bytes: seq<Byte>)
    requires Kept(store, f, n, bytes)
    ensures store.fs.g.Fits(store.fs.disk.data.Length) && f in store.files
    ensures FatContent.Within(store.fs.Now().data, store.files[f])
    ensures KeptIn(store.fs.g, store.fs.Now(), store.files[f], n, bytes)
  {
  }

  ghost predicate KeptIn(g: Geometry, v: Volume, ch: seq<nat>, n: nat, bytes: seq<Byte>) {
    && FatContent.Within(v.data, ch) && |Content(v.data, ch)| == Base(g, n)
    && forall i :: 0 <= i < |bytes| && i < Base(g, n) ==> Content(v.data, ch)[i] == bytes[i]
  }

  lemma ReadBack(g: Geometry, v: Volume, ch: seq<nat>, q: nat, n: nat, was: seq<Byte>, now: seq<Byte>, pos: nat,
      ok: bool,
      k: nat, bytes: seq<Byte>)
    requires g.perCluster > 0 && KeptIn(g, v, ch, k, bytes) && ReadDone(g, v, ch, q, n, was, now, pos, ok)
    requires |was| == n > 0 && q + n <= |bytes|
    ensures ok <==> Readable(g, ch, q + n - 1)
    ensures ok ==> now == bytes[q..q + n]
  {
    hide Content, Readable, Base;
    if ok {
      var content := Content(v.data, ch);
      assert q + n <= |content| && now == content[q..q + n];
    }
  }

  lemma DoneBytes(g: Geometry, v0: Volume, v: Volume, files: Files, after: Files, f: nat, p: nat, s: seq<Byte>,
      size: nat, bytes: seq<Byte>)
    requires g.perCluster > 0 && f in files && WriteDone(g, v0, v, files, after, f, p, s, size, |s|)
    requires Holds(v0, files[f], size, bytes)
    ensures f in after && p <= |bytes|
    ensures Holds(v, after[f], if p + |s| > size then p + |s| else size, Overwrite(bytes, p, s))
    ensures |Overwrite(bytes, p, s)| == if p + |s| > size then p + |s| else size
  {
  }

  /** What a failed write leaves of a file that held `bytes`: all of them where the position
      cannot be reached, and else, where the clusters ran out, the bytes of the whole write
      up to the old size. */
  ghost function AfterFailure(bytes: seq<Byte>, p: nat, s: seq<Byte>, reached: bool): (r: seq<Byte>)
    requires p <= |bytes|
    ensures |r| == |bytes|
  {
    if reached then Overwrite(bytes, p, s)[..|bytes|] else bytes
  }

  lemma FailedBytes(g: Geometry, v0: Volume, v: Volume, files: Files, after: Files, f: nat, p: nat, s: seq<Byte>,
      size: nat, res: int, bytes: seq<Byte>)
    requires g.perCluster > 0 && f in files && WriteDone(g, v0, v, files, after, f, p, s, size, res) && res < 0
    requires Holds(v0, files[f], size, bytes) && p <= |bytes|
    ensures f in after
    ensures Holds(v, after[f], size, AfterFailure(bytes, p, s, files[f] == [] || Readable(g, files[f], p)))
  {
    hide Content, Overwrite, Readable, FatContent.Within, CutShort, OtherKept;
    if files[f] == [] || Readable(g, files[f], p) {
      CutShortBytes(g, v0, v, files[f], after[f], p, s, size);
    }
  }

  /** The position of the open file can be reached, or the file is empty. */
  ghost predicate Reached(store: Store, f: OpenFile)
    requires store.fs.g.perCluster > 0 && f.id in store.files
    reads store, f
  {
    store.files[f.id] == [] || Readable(store.fs.g, store.files[f.id], f.pos)
  }

  /** A write to a file that holds `bytes`. */
  method WriteKnown(store: Store, f: OpenFile, s: seq<Byte>, ghost bytes: seq<Byte>) returns (res: int)
    requires WriteReady(store, f, |s|) && FileHolds(store, f, bytes)
    modifies store`files, f`item, f`pos, store.fs.tables, store.fs.clusters, store.fs.directory, store.fs.disk.data
    ensures store.Valid() && store.Open(f) && old(f.pos) <= |bytes| && (res >= 0 ==> res == |s|)
    ensures res >= 0 <==> old(Succeeds(store, f, |s|))
    ensures res >= 0 ==> FileHolds(store, f, Overwrite(bytes, old(f.pos), s))
    ensures res < 0 ==> FileHolds(store, f, AfterFailure(bytes, old(f.pos), s, old(Reached(store, f))))
  {
    hide *;
    ReadyParts(store, f, |s|);
    HoldsSize(store, f, bytes);
    ReachedIs(store, f);
    ghost var v0, files, p, size := store.fs.Now(), store.files, f.pos, f.item.filesize;
    res := WriteReadied(store, f, s);
    DoneIff(store.fs.g, v0, store.fs.Now(), files, store.files, f.id, p, s, size, res);
    if res >= 0 {
      DoneBytes(store.fs.g, v0, store.fs.Now(), files, store.files, f.id, p, s, size, bytes);
      HoldsIs(store, f, Overwrite(bytes, p, s));
    } else {
      FailedBytes(store.fs.g, v0, store.fs.Now(), files, store.files, f.id, p, s, size, res, bytes);
      HoldsIs(store, f, AfterFailure(bytes, p, s, old(Reached(store, f))));
    }
  }

  lemma ReachedIs(store: Store, f: OpenFile)
    requires store.fs.g.perCluster > 0 && f.id in store.files
    ensures Reached(store, f) <==> store.files[f.id] == [] || Readable(store.fs.g, store.files[f.id], f.pos)
  {
  }

  /** WriteFile where the file has a cluster or can get one. */
  method WriteReadied(store: Store, f: OpenFile, s: seq<Byte>) returns (res: int)
    requires WriteReady(store, f, |s|) && store.fs.g.perCluster > 0 && f.id in store.files
    modifies store`files, f`item, f`pos, store.fs.tables, store.fs.clusters, store.fs.directory, store.fs.disk.data
    ensures store.Valid() && store.Open(f)
    ensures f.item.filesize == if f.pos > old(f.item.filesize) then f.pos else old(f.item.filesize)
    ensures f.pos == old(f.pos) + if res >= 0 then |s| else 0
    ensures WriteDone(store.fs.g, old(store.fs.Now()), store.fs.Now(), old(store.files), store.files, f.id, old(f.pos),
                      s, old(f.item.filesize), res)
  {
    hide *;
    ReadyParts(store, f, |s|);
    res := WriteFile(store, f, s);
  }

  /** The store and the open file meet what a write of `n` bytes asks for. */
  ghost predicate WriteReady(store: Store, f: OpenFile, n: nat)
    reads store, f, store.fs.disk.data
  {
    && store.Valid() && store.Open(f) && store.fs.g.perCluster > 0 && Shaped(store.fs.g, store.fs.Now())
    && CanStart(store.fs.g, store.fs.Now(), store.files[f.id])
    && CanGrow(store.fs.g, store.fs.Now(), store.files[f.id], f.pos + n) && n < INT_LIMIT
  }

  /** The position can be reached, and the free clusters suffice for `n` bytes there. */
  ghost predicate Succeeds(store: Store, f: OpenFile, n: nat)
    requires WriteReady(store, f, n)
    reads store, f, store.fs.disk.data
  {
    WriteSucceeds(store.fs.g, store.fs.Now(), store.files[f.id], f.pos, n)
  }

  ghost predicate WriteSucceeds(g: Geometry, v: Volume, ch: seq<nat>, p: nat, n: nat)
    requires g.perCluster > 0 && g.limit <= |v.fat|
  {
    (ch == [] || Readable(g, ch, p)) && p + n <= Base(g, |ch| + |Free(v.fat, g.Usable())|)
  }

  lemma ReadyParts(store: Store, f: OpenFile, n: nat)
    requires WriteReady(store, f, n)
    ensures store.Valid() && store.Open(f) && store.fs.g.perCluster > 0 && Shaped(store.fs.g, store.fs.Now())
    ensures CanStart(store.fs.g, store.fs.Now(), store.files[f.id])
    ensures CanGrow(store.fs.g, store.fs.Now(), store.files[f.id], f.pos + n) && n < INT_LIMIT
    ensures store.fs.g.Fits(store.fs.disk.data.Length)
    ensures Succeeds(store, f, n) <==>
            WriteSucceeds(store.fs.g, store.fs.Now(), store.files[f.id], f.pos, n)
  {
  }

  lemma DoneIff(g: Geometry, v0: Volume, v: Volume, files: Files, after: Files, f: nat, p: nat, s: seq<Byte>, size: nat,
      res: int)
    requires g.perCluster > 0 && g.limit <= |v0.fat| && f in files
    requires WriteDone(g, v0, v, files, after, f, p, s, size, res)
    ensures res >= 0 <==> WriteSucceeds(g, v0, files[f], p, |s|)
    ensures res >= 0 ==> res == |s|
  {
  }

  lemma HoldsIs(store: Store, f: OpenFile, bytes: seq<Byte>)
    requires store.Valid() && f.id in store.files
    requires Holds(store.fs.Now(), store.files[f.id], f.item.filesize, bytes)
    ensures FileHolds(store, f, bytes)
  {
  }

  lemma HoldsSize(store: Store, f: OpenFile, bytes: seq<Byte>)
    requires store.Open(f) && FileHolds(store, f, bytes)
    ensures |bytes| == f.item.filesize && f.pos <= |bytes| && f.id in store.files
    ensures Holds(store.fs.Now(), store.files[f.id], f.item.filesize, bytes)
  {
  }

  /** After a write, reading any range of the file gives that range of the overwritten
      bytes, as long as its last byte can be reached. */
  method WriteThenRead(store: Store, f: OpenFile, s: seq<Byte>, q: nat, n: nat, out: array<Byte>,
      ghost bytes: seq<Byte>) returns (res: int)
    requires WriteReady(store, f, |s|) && f.isFile
    requires out != store.fs.disk.data && out.Length == n > 0
    requires FileHolds(store, f, bytes) && f.pos <= |bytes|
    modifies store`files, f`item, f`pos, out, store.fs.tables, store.fs.clusters, store.fs.directory, store.fs.disk.data
    ensures store.Valid() && store.Open(f) && (res == |s| || res < 0) && (res >= 0 <==> old(Succeeds(store, f, |s|)))
    ensures res >= 0 && q + n <= |Overwrite(bytes, old(f.pos), s)| ==>
      Readable(store.fs.g, store.files[f.id], q + n - 1) ==>
      out[..] == Overwrite(bytes, old(f.pos), s)[q..q + n]
  {
    hide FatDisk.Valid, FatDisk.Now, Geometry.Fits, Store.Valid, CanStart, CanGrow, Shaped, Overwrite, Readable, Holds,
         FileHolds, WriteReady, Succeeds;
    ghost var after := Overwrite(bytes, f.pos, s);
    res := WriteKnown(store, f, s, bytes);
    if res >= 0 {
      HoldsSize(store, f, after);
    }
    if res >= 0 && q + n <= f.item.filesize {
      var _ := ReadRange(store, f, q, n, out, after);
    }
  }
}
