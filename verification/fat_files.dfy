/** Reading and writing along a chain (fat16_write_internal and
    fat16_read_internal_from_stream in fs/fat/fat16.c). */
module FatFiles {
  import opened Common
  import opened Streamer
  import opened FatTable
  import opened FatLayout
  import opened FatContent
  import opened FatVolume
  import opened FatChains

  ghost predicate Shaped(g: Geometry, v: Volume) {
    && |v.fat| == g.Entries() && g.limit <= |v.fat| && 2 <= g.limit <= CLUSTER_LIMIT
    && |v.data| == g.limit && FatContent.Sized(v.data, g.ClusterSize())
  }

  /** The chain grew from `ch` to `grown` by the first free clusters, and what lies outside
      of it is untouched. */
  ghost predicate Grew(g: Geometry, v0: Volume, v: Volume, ch: seq<nat>, grown: seq<nat>)
    requires Shaped(g, v0) && Shaped(g, v)
  {
    && v.root == v0.root && Links(v.fat, g.limit, grown) && ch <= grown
    && (forall k :: 0 <= k < |v.fat| && k !in grown ==> v.fat[k] == v0.fat[k])
    && (forall k :: 0 <= k < g.limit && k !in grown ==> v.data[k] == v0.data[k])
    && (forall i :: |ch| <= i < |grown| ==> v0.fat[grown[i]] == 0)
    && (forall i, k :: |ch| <= i < |grown| && k in Free(v.fat, g.Usable()) ==> grown[i] < k)
    && |Free(v.fat, g.Usable())| + |grown| == |Free(v0.fat, g.Usable())| + |ch|
  }

  /** The content of the chain is the old content of the same clusters with `s` put at
      `offset`. */
  ghost predicate Wrote(v0: Volume, v: Volume, ch: seq<nat>, offset: nat, s: seq<Byte>)
    requires FatContent.Within(v0.data, ch) && FatContent.Within(v.data, ch)
  {
    offset + |s| <= |Content(v0.data, ch)| && Content(v.data, ch) == Splice(Content(v0.data, ch), offset, s)
  }

  lemma LinksWithin(g: Geometry, v: Volume, ch: seq<nat>)
    requires Shaped(g, v) && Links(v.fat, g.limit, ch)
    ensures FatContent.Within(v.data, ch)
  {
  }

  lemma GrewNothing(g: Geometry, v: Volume, ch: seq<nat>)
    requires Shaped(g, v) && Links(v.fat, g.limit, ch)
    ensures Grew(g, v, v, ch, ch)
  {
  }

  lemma GrewMore(g: Geometry, v0: Volume, v: Volume, ch: seq<nat>, grown: seq<nat>, c: nat)
    requires Shaped(g, v0) && Shaped(g, v) && Grew(g, v0, v, ch, grown)
    requires c in Free(v.fat, g.Usable()) && c == LeastFree(v.fat, 2)
    ensures var now := v.(fat := Appended(v.fat, grown, c));
            Shaped(g, now) && Grew(g, v0, now, ch, grown + [c]) && c !in grown && v0.fat[c] == 0
              && v.data[c] == v0.data[c]
  {
    hide Appended, Links, Sized, Free, LeastFree, Geometry.Usable;
    LinksInTable(v.fat, g.limit, grown);
    AppendLinks(v.fat, g.limit, g.Usable(), grown, c);
    var now := v.(fat := Appended(v.fat, grown, c));
    assert forall k :: k in Free(v.fat, g.Usable()) ==> c <= k by { LeastBelow(v.fat, g.Usable()); }
    OrderMore(|ch|, grown, c, Free(v.fat, g.Usable()), Free(now.fat, g.Usable()));
    WasFree(v0.fat, v.fat, |ch|, grown, c);
  }

  lemma LeastBelow(fat: Fat, u: nat)
    requires 2 <= |fat| && u <= |fat|
    ensures forall k :: k in Free(fat, u) ==> LeastFree(fat, 2) <= k
  {
  }

  lemma OrderMore(n: nat, grown: seq<nat>, c: nat, free: set<nat>, less: set<nat>)
    requires less == free - {c} && (forall k :: k in free ==> c <= k)
    requires forall i, k :: n <= i < |grown| && k in free ==> grown[i] < k
    ensures forall i, k :: n <= i < |grown + [c]| && k in less ==> (grown + [c])[i] < k
  {
  }

  lemma WasFree(fat0: Fat, fat: Fat, n: nat, grown: seq<nat>, c: nat)
    requires |fat0| == |fat| && c < |fat| && fat[c] == 0 && c !in grown && n <= |grown|
    requires forall k :: 0 <= k < |fat| && k !in grown ==> fat[k] == fat0[k]
    requires forall i :: n <= i < |grown| ==> grown[i] < |fat0| && fat0[grown[i]] == 0
    ensures forall i :: n <= i < |grown + [c]| ==> (grown + [c])[i] < |fat0| && fat0[(grown + [c])[i]] == 0
  {
  }

  lemma GrewPiece(g: Geometry, v0: Volume, v: Volume, ch: seq<nat>, grown: seq<nat>, j: nat, piece: seq<Byte>)
    requires Shaped(g, v0) && Shaped(g, v) && Grew(g, v0, v, ch, grown) && j < |grown| && |piece| == g.ClusterSize()
    requires grown[j] < |v.data|
    ensures var now := v.(data := v.data[grown[j] := piece]);
            Shaped(g, now) && Grew(g, v0, now, ch, grown)
  {
  }

  lemma WroteNothing(v: Volume, ch: seq<nat>, offset: nat)
    requires FatContent.Within(v.data, ch) && offset <= |Content(v.data, ch)|
    ensures Wrote(v, v, ch, offset, [])
  {
  }

  lemma WroteMore(g: Geometry, v0: Volume, v: Volume, ch: seq<nat>, c: nat, offset: nat, s: seq<Byte>)
    requires FatContent.Within(v0.data, ch) && FatContent.Within(v.data, ch) && Wrote(v0, v, ch, offset, s)
    requires 2 <= c < |v.data| == |v0.data| && v.data[c] == v0.data[c]
    ensures FatContent.Within(v0.data, ch + [c]) && FatContent.Within(v.data, ch + [c])
    ensures Wrote(v0, v, ch + [c], offset, s)
  {
    ContentMore(v0.data, ch, c);
    ContentMore(v.data, ch, c);
    SpliceFront(Content(v0.data, ch), v0.data[c], offset, s);
  }

  lemma WrotePiece(g: Geometry, v0: Volume, v: Volume, ch: seq<nat>, j: nat, at: nat, off: nat, offset: nat,
      s: seq<Byte>, piece: seq<Byte>)
    requires Shaped(g, v) && Links(v.fat, g.limit, ch) && FatContent.Within(v0.data, ch)
    requires FatContent.Within(v.data, ch)
    requires Wrote(v0, v, ch, offset, s) && j < |ch| && at == j * g.ClusterSize() && off + |piece| <= g.ClusterSize()
    requires at + off == offset + |s|
    ensures var now := v.(data := v.data[ch[j] := Splice(v.data[ch[j]], off, piece)]);
            FatContent.Within(now.data, ch) && Wrote(v0, now, ch, offset, s + piece)
  {
    ContentWritten(v.data, ch, g.ClusterSize(), j, at, off, piece);
    hide Splice;
    SpliceSplice(Content(v0.data, ch), offset, s, piece);
  }

  lemma NowShaped(fs: FatDisk)
    requires fs.Valid()
    ensures fs.g.Fits(fs.disk.data.Length) && Shaped(fs.g, fs.Now()) && fs.g.perCluster > 0 && fs.g.ClusterSize() > 0
  {
  }

  lemma NowSized(fs: FatDisk, ch: seq<nat>, j: nat)
    requires fs.Valid() && FatContent.Within(fs.Now().data, ch) && j < |ch|
    ensures FatContent.Sized(fs.Now().data, fs.g.ClusterSize()) && 2 <= ch[j] < fs.g.limit
  {
  }

  /** The offset at which the `j`th cluster of a chain begins. */
  function Base(g: Geometry, j: nat): nat { j * g.ClusterSize() }

  lemma NextBase(g: Geometry, j: nat)
    ensures Base(g, j + 1) == Base(g, j) + g.ClusterSize()
  {
  }

  /** The volume has enough free clusters for a chain of `n` bytes, or its scan knows when
      it is full. */
  ghost predicate Room(g: Geometry, v: Volume, ch: seq<nat>, n: nat)
    requires Shaped(g, v) && g.perCluster > 0
  {
    Sealed(g, v.fat) || n <= Base(g, |ch| + |Free(v.fat, g.Usable())|)
  }

  lemma SealedKept(g: Geometry, v0: Volume, v: Volume, ch: seq<nat>, grown: seq<nat>)
    requires Shaped(g, v0) && Shaped(g, v) && Grew(g, v0, v, ch, grown) && g.perCluster > 0
    ensures Sealed(g, v0.fat) ==> Sealed(g, v.fat)
  {
    assert forall k :: k in grown ==> k < g.limit;
  }

  /** While bytes are missing and the chain is used up, there is room or the scan sees that
      there is none. */
  lemma RoomLeft(g: Geometry, v0: Volume, v: Volume, ch: seq<nat>, grown: seq<nat>, n: nat)
    requires Shaped(g, v0) && Shaped(g, v) && Grew(g, v0, v, ch, grown) && g.perCluster > 0
    requires Room(g, v0, ch, n) && Base(g, |grown|) < n
    ensures Sealed(g, v.fat) || Free(v.fat, g.Usable()) != {}
  {
    SealedKept(g, v0, v, ch, grown);
    var size, all := g.ClusterSize(), |ch| + |Free(v0.fat, g.Usable())|;
    if all <= |grown| {
      MulOrder(all, |grown|, size);
    }
  }

  /** fat16.c:1105-1117: the link is followed; at the end of the chain a cluster is
      appended. */
  method NextCluster(fs: FatDisk, cluster: nat, ghost ch: seq<nat>, ghost j: nat) returns (next: int)
    requires fs.Valid() && Links(fs.Now().fat, fs.g.limit, ch) && j < |ch| && cluster == ch[j] && fs.g.perCluster > 0
    requires j + 1 == |ch| ==> Sealed(fs.g, fs.Now().fat) || Free(fs.Now().fat, fs.g.Usable()) != {}
    modifies fs.tables, fs.disk.data
    ensures fs.Valid()
    ensures j + 1 < |ch| ==> next == ch[j + 1] && fs.Now() == old(fs.Now())
    ensures j + 1 == |ch| && old(Free(fs.Now().fat, fs.g.Usable())) == {} ==>
      next == -ENOMEM && fs.Now() == old(fs.Now())
    ensures j + 1 == |ch| && old(Free(fs.Now().fat, fs.g.Usable())) != {} ==>
      && next == LeastFree(old(fs.Now().fat), 2) && next in old(Free(fs.Now().fat, fs.g.Usable()))
      && (forall i :: 0 <= i < |ch| ==> ch[i] < |old(fs.Now().fat)|)
      && fs.Now() == old(fs.Now()).(fat := Appended(old(fs.Now().fat), ch, next))
  {
    LimitFits(fs);
    assert LinkAt(fs.Now().fat, ch, j);
    assert 2 <= cluster < fs.g.limit;
    hide FatDisk.Valid, FatDisk.Raw, FatDisk.Now, Geometry.Fits, Links, Appended, LeastFree, Free, Sealed;
    EntryOnDisk(fs, cluster);
    next := fs.GetFatEntry(cluster);
    RawIsEntry(fs, cluster);
    if next >= END {
      next := AllocateCluster(fs, cluster, ch);
    }
  }

  lemma MulOrder(a: nat, b: nat, size: nat)
    requires a <= b
    ensures a * size <= b * size
  {
  }

  /** A write on its way: the bytes `s` are in place. */
  ghost predicate Progress(g: Geometry, v0: Volume, v: Volume, ch: seq<nat>, grown: seq<nat>, offset: nat,
      s: seq<Byte>) {
    && Shaped(g, v0) && Shaped(g, v) && Grew(g, v0, v, ch, grown)
    && FatContent.Within(v0.data, grown) && FatContent.Within(v.data, grown) && Wrote(v0, v, grown, offset, s)
  }

  lemma ProgressStart(g: Geometry, v: Volume, ch: seq<nat>, offset: nat, j: nat)
    requires Shaped(g, v) && Links(v.fat, g.limit, ch) && j < |ch|
    requires g.perCluster > 0 && j == offset / g.ClusterSize()
    ensures Progress(g, v, v, ch, ch, offset, [])
  {
    GrewNothing(g, v, ch);
    ContentAt(v.data, ch, g.ClusterSize(), j);
    Divided(offset, g.ClusterSize());
    WroteNothing(v, ch, offset);
  }

  lemma Divided(offset: nat, size: nat)
    requires size > 0
    ensures offset == (offset / size) * size + offset % size && 0 <= offset % size < size
  {
  }

  /** fat16.c:1084-1103. */
  method PutPiece(fs: FatDisk, cluster: nat, offsetIn: nat, s: seq<Byte>, written: nat,
                  ghost v0: Volume, ghost ch: seq<nat>, ghost grown: seq<nat>, ghost j: nat, ghost at: nat,
                    ghost offset: nat)
    returns (now: nat)
    requires fs.Valid() && written < |s| && offsetIn < fs.g.ClusterSize()
    requires Progress(fs.g, v0, fs.Now(), ch, grown, offset, s[..written])
    requires j < |grown| && cluster == grown[j] && at == Base(fs.g, j) && at + offsetIn == offset + written
    modifies fs.clusters, fs.disk.data
    ensures fs.Valid() && written < now <= |s| && Progress(fs.g, v0, fs.Now(), ch, grown, offset, s[..now])
    ensures at < offset + now && (now < |s| ==> offset + now == at + fs.g.ClusterSize())
    ensures Free(fs.Now().fat, fs.g.Usable()) == old(Free(fs.Now().fat, fs.g.Usable()))
    ensures fs.Now().fat == old(fs.Now().fat)
  {
    hide *;
    NowShaped(fs);
    ghost var v := fs.Now();
    ProgressCluster(fs.g, v0, v, ch, grown, offset, s[..written], j);
    var size := fs.g.perCluster * SECTOR;
    var toWrite := size - offsetIn;
    if toWrite > |s| - written {
      toWrite := |s| - written;
    }
    now := written + toWrite;
    var piece := s[written..now];
    var res := fs.WritePiece(cluster, offsetIn, piece);
    assert s[..written] + piece == s[..now];
    PieceProgress(fs.g, v0, v, ch, grown, j, at, offsetIn, offset, s[..written], piece);
  }

  lemma ProgressCluster(g: Geometry, v0: Volume, v: Volume, ch: seq<nat>, grown: seq<nat>, offset: nat, s: seq<Byte>,
      j: nat)
    requires Progress(g, v0, v, ch, grown, offset, s) && j < |grown|
    ensures 2 <= grown[j] < g.limit == |v.data| && |v.data[grown[j]]| == g.ClusterSize()
    ensures g.ClusterSize() == g.perCluster * SECTOR && Base(g, j) == j * g.ClusterSize()
  {
  }

  lemma PieceProgress(g: Geometry, v0: Volume, v: Volume, ch: seq<nat>, grown: seq<nat>, j: nat, at: nat, off: nat,
      offset: nat, s: seq<Byte>, piece: seq<Byte>)
    requires Progress(g, v0, v, ch, grown, offset, s)
    requires j < |grown| && at == j * g.ClusterSize() && off + |piece| <= g.ClusterSize() && at + off == offset + |s|
    requires grown[j] < |v.data| && off + |piece| <= |v.data[grown[j]]|
    ensures Progress(g, v0, v.(data := v.data[grown[j] := Splice(v.data[grown[j]], off, piece)]), ch, grown, offset,
      s + piece)
  {
    hide Splice, Content, Links, Free;
    GrewPiece(g, v0, v, ch, grown, j, Splice(v.data[grown[j]], off, piece));
    WrotePiece(g, v0, v, grown, j, at, off, offset, s, piece);
  }

  lemma GrownProgress(g: Geometry, v0: Volume, v: Volume, ch: seq<nat>, grown: seq<nat>, offset: nat, s: seq<Byte>,
      c: nat)
    requires Progress(g, v0, v, ch, grown, offset, s) && c in Free(v.fat, g.Usable()) && c == LeastFree(v.fat, 2)
    requires forall i :: 0 <= i < |grown| ==> grown[i] < |v.fat|
    ensures Progress(g, v0, v.(fat := Appended(v.fat, grown, c)), ch, grown + [c], offset, s)
  {
    GrewMore(g, v0, v, ch, grown, c);
    hide Appended, Links, Content, Splice;
    WroteMore(g, v0, v, grown, c, offset, s);
  }

  /** fat16.c:1105-1117 on the way. */
  method MoveOn(fs: FatDisk, cluster: nat, ghost v0: Volume, ghost ch: seq<nat>, ghost grown: seq<nat>, ghost j: nat,
                ghost offset: nat, ghost s: seq<Byte>, ghost n: nat)
    returns (next: int, ghost more: seq<nat>)
    requires fs.Valid() && Progress(fs.g, v0, fs.Now(), ch, grown, offset, s)
    requires j < |grown| && cluster == grown[j] && fs.g.perCluster > 0
    requires j + 1 == |grown| ==> Room(fs.g, v0, ch, n) && Base(fs.g, |grown|) < n
    modifies fs.tables, fs.disk.data
    ensures fs.Valid() && Progress(fs.g, v0, fs.Now(), ch, more, offset, s)
    ensures next < 0 ==> next == -ENOMEM && j + 1 == |grown| && more == grown && Free(fs.Now().fat, fs.g.Usable()) == {}
    ensures next >= 0 ==>
      && j + 1 < |more| && next == more[j + 1]
      && (j + 1 < |grown| ==> more == grown) && (j + 1 == |grown| ==> |more| == j + 2)
  {
    ghost var v := fs.Now();
    NowShaped(fs);
    more := grown;
    if j + 1 == |grown| {
      RoomLeft(fs.g, v0, v, ch, grown, n);
    }
    assert Links(v.fat, fs.g.limit, grown);
    hide FatDisk.Valid, FatDisk.Now, Geometry.Fits, Links, Free, Shaped, Grew, Wrote, Splice,
         FatContent.Within, Content, Progress, LeastFree, Appended, Sealed;
    next := NextCluster(fs, cluster, grown, j);
    if j + 1 == |grown| && next >= 0 {
      GrownProgress(fs.g, v0, v, ch, grown, offset, s, next);
      more := grown + [next];
    }
  }

  /** What a write along a chain has done: all of `s`, or what fits before the volume is
      full. */
  ghost predicate Written(g: Geometry, v0: Volume, v: Volume, ch: seq<nat>, grown: seq<nat>, offset: nat, s: seq<Byte>,
      done: nat, res: int) {
    && done <= |s| && Progress(g, v0, v, ch, grown, offset, s[..done])
    && (|grown| > |ch| ==> Base(g, |grown| - 1) < offset + done)
    && (res == |s| == done ||
        (res == -ENOMEM && done < |s| && Free(v.fat, g.Usable()) == {} && offset + done == Base(g, |grown|)))
  }

  /** fat16.c:1083-1120. */
  method WriteLoop(fs: FatDisk, first: nat, within: nat, s: seq<Byte>, ghost v0: Volume, ghost ch: seq<nat>,
      ghost k: nat, ghost offset: nat)
    returns (res: int, ghost grown: seq<nat>, ghost done: nat)
    requires fs.Valid() && fs.g.perCluster > 0 && v0 == fs.Now() && Progress(fs.g, v0, v0, ch, ch, offset, [])
    requires Room(fs.g, v0, ch, offset + |s|) && k < |ch| && first == ch[k]
    requires within < fs.g.ClusterSize() && offset == Base(fs.g, k) + within
    modifies fs.tables, fs.clusters, fs.disk.data
    ensures fs.Valid() && Written(fs.g, v0, fs.Now(), ch, grown, offset, s, done, res)
  {
    hide FatDisk.Valid, FatDisk.Now, Geometry.Fits, Shaped, Room, Progress, Free, Base;
    LimitFits(fs);
    grown := ch;
    var cluster: nat, offsetIn: nat, written: nat := first, within, 0;
    ghost var j: nat, at: nat := k, Base(fs.g, k);
    assert s[..0] == [];
    while written < |s|
      invariant fs.Valid() && written <= |s| && Progress(fs.g, v0, fs.Now(), ch, grown, offset, s[..written])
      invariant j < |grown| && at == Base(fs.g, j) && (|grown| > |ch| ==> j == |grown| - 1)
      invariant written < |s| ==>
        cluster == grown[j] && at + offsetIn == offset + written && offsetIn < fs.g.ClusterSize()
      invariant written == |s| && |grown| > |ch| ==> at < offset + written
    {
      written := PutPiece(fs, cluster, offsetIn, s, written, v0, ch, grown, j, at, offset);
      offsetIn := 0;
      if written < |s| {
        NextBase(fs.g, j);
        var next;
        next, grown := MoveOn(fs, cluster, v0, ch, grown, j, offset, s[..written], offset + |s|);
        if next < 0 {
          return next, grown, written;
        }
        cluster := next;
        j, at := j + 1, Base(fs.g, j + 1);
      }
    }
    return written, grown, written;
  }

  /** fat16_write_internal. `grown` is the chain afterwards and `done` the number of bytes
      written. */
  method WriteInternal(fs: FatDisk, start: nat, offset: nat, s: seq<Byte>, ghost ch: seq<nat>)
    returns (res: int, ghost grown: seq<nat>, ghost done: nat)
    requires fs.Valid() && Shaped(fs.g, fs.Now()) && fs.g.perCluster > 0
    requires ch != [] && start == ch[0] && Links(fs.Now().fat, fs.g.limit, ch)
    requires Room(fs.g, fs.Now(), ch, offset + |s|)
    modifies fs.tables, fs.clusters, fs.disk.data
    ensures fs.Valid()
    ensures Located(ch, 0, Ahead(fs.g, offset)) < 0 ==>
      res == Located(ch, 0, Ahead(fs.g, offset)) && grown == ch && fs.Now() == old(fs.Now())
    ensures Located(ch, 0, Ahead(fs.g, offset)) >= 0 ==>
      Written(fs.g, old(fs.Now()), fs.Now(), ch, grown, offset, s, done, res)
  {
    ghost var v0, j := fs.Now(), Ahead(fs.g, offset);
    WalkIff(v0.fat, fs.g.limit, ch, 0, j);
    assert 2 <= ch[0] < fs.g.limit;
    assert Located(ch, 0, j) >= 0 ==> j < |ch| && Located(ch, 0, j) == ch[j];
    hide FatDisk.Valid, FatDisk.Now, Geometry.Fits, Links, Shaped, Room, Free, Walk, Located, Written;
    NowShaped(fs);
    grown, done := ch, 0;
    var size := fs.g.perCluster * SECTOR;
    res := GetClusterForOffset(fs, start, offset);
    if res < 0 {
      return;
    }
    var cluster: nat := res;
    Divided(offset, size);
    ProgressStart(fs.g, v0, ch, offset, j);
    assert Base(fs.g, j) == j * size;
    hide Base, Ahead, Progress;
    res, grown, done := WriteLoop(fs, cluster, offset % size, s, v0, ch, j, offset);
  }

  // --------------------------------------------------------------- reading

  /** `n` bytes of the content from `p` on. */
  function Piece(content: seq<Byte>, p: nat, n: nat): (r: seq<Byte>)
    requires n > 0 ==> p + n <= |content|
    ensures |r| == n
  {
    if n == 0 then [] else content[p..p + n]
  }

  lemma PieceMore(content: seq<Byte>, p: nat, n: nat, m: nat)
    requires p + n + m <= |content|
    ensures Piece(content, p, n) + content[p + n..p + n + m] == Piece(content, p, n + m)
  {
  }

  /** A byte of the file can be reached: its cluster exists, and cluster 4087 is not met on
      the way. */
  predicate Readable(g: Geometry, ch: seq<nat>, offset: nat)
    requires g.perCluster > 0
  {
    Located(ch, 0, Ahead(g, offset)) >= 0
  }

  lemma AheadGrows(g: Geometry, p: nat, q: nat)
    requires g.perCluster > 0 && p <= q
    ensures Ahead(g, p) <= Ahead(g, q)
  {
    Divided(p, g.ClusterSize());
    Divided(q, g.ClusterSize());
    if Ahead(g, q) < Ahead(g, p) {
      MulOrder(Ahead(g, q) + 1, Ahead(g, p), g.ClusterSize());
      NextBase(g, Ahead(g, q));
    }
  }

  /** A walk that fails keeps failing in the same way farther on. */
  lemma FailsOn(g: Geometry, ch: seq<nat>, p: nat, q: nat)
    requires g.perCluster > 0 && p <= q && !Readable(g, ch, p)
    ensures !Readable(g, ch, q) && Located(ch, 0, Ahead(g, p)) < 0
    ensures Located(ch, 0, Ahead(g, q)) == Located(ch, 0, Ahead(g, p))
  {
    AheadGrows(g, p, q);
    assert MeetsBad(ch, 0, Ahead(g, p)) ==> MeetsBad(ch, 0, Ahead(g, q));
  }

  /** fat16.c:431-445: what one cluster has of the range. */
  method GetPiece(fs: FatDisk, cluster: nat, offset: nat, left: nat, out: array<Byte>, at: nat, ghost ch: seq<nat>,
      ghost j: nat)
    returns (count: nat)
    requires fs.Valid() && fs.g.perCluster > 0 && out != fs.disk.data && left > 0 && at + left <= out.Length
    requires FatContent.Within(fs.Now().data, ch) && j < |ch| && cluster == ch[j] && j == Ahead(fs.g, offset)
    modifies fs.clusters, out
    ensures 0 < count <= left && Ahead(fs.g, offset + count - 1) == j
    ensures offset + count <= |Content(fs.Now().data, ch)|
    ensures out[..] == Splice(old(out[..]), at, Content(fs.Now().data, ch)[offset..offset + count])
  {
    hide *;
    NowShaped(fs);
    NowSized(fs, ch, j);
    ghost var data := fs.Now().data;
    var offsetIn;
    offsetIn, count := PieceSize(fs.g, offset, left);
    ghost var base: nat := offset - offsetIn;
    ContentPiece(data, ch, fs.g.ClusterSize(), j, base, offsetIn, count);
    var _ := fs.ReadPiece(cluster, offsetIn, count, out, at);
  }

  /** fat16.c:431-438. */
  method PieceSize(g: Geometry, offset: nat, left: nat) returns (offsetIn: nat, count: nat)
    requires g.perCluster > 0 && left > 0
    ensures 0 < count <= left && offsetIn + count <= g.ClusterSize() && offsetIn <= offset
    ensures offset - offsetIn == Ahead(g, offset) * g.ClusterSize()
    ensures Ahead(g, offset + count - 1) == Ahead(g, offset)
  {
    var size := g.perCluster * SECTOR;
    Divided(offset, size);
    offsetIn := offset % size;
    count := size - offsetIn;
    if count > left {
      count := left;
    }
    SameCluster(g, offset, offsetIn, count);
  }

  /** One turn of the read loop (fat16.c:425-453). */
  method ReadStep(fs: FatDisk, start: nat, offset: nat, left: nat, out: array<Byte>, at: nat, ghost ch: seq<nat>)
    returns (res: int, count: nat)
    requires fs.Valid() && fs.g.perCluster > 0 && out != fs.disk.data && left > 0 && at + left <= out.Length
    requires ch != [] && start == ch[0] && Links(fs.Now().fat, fs.g.limit, ch)
    requires FatContent.Within(fs.Now().data, ch)
    modifies fs.tables, fs.clusters, out
    ensures fs.Valid()
    ensures !Readable(fs.g, ch, offset) ==> res == Located(ch, 0, Ahead(fs.g, offset)) && out[..] == old(out[..])
    ensures Readable(fs.g, ch, offset) ==> res == 0 && 0 < count <= left && Readable(fs.g, ch, offset + count - 1)
    ensures Readable(fs.g, ch, offset) ==> offset + count <= |Content(fs.Now().data, ch)|
    ensures Readable(fs.g, ch, offset) ==>
      out[..] == Splice(old(out[..]), at, Content(fs.Now().data, ch)[offset..offset + count])
  {
    ghost var j := Ahead(fs.g, offset);
    WalkIff(fs.Now().fat, fs.g.limit, ch, 0, j);
    assert 2 <= ch[0] < fs.g.limit;
    assert Located(ch, 0, j) >= 0 ==> j < |ch| && Located(ch, 0, j) == ch[j];
    hide FatDisk.Valid, FatDisk.Now, Geometry.Fits, Links, Walk, Located, FatContent.Within, Splice, Content,
         Ahead;
    NowShaped(fs);
    count := 0;
    res := GetClusterForOffset(fs, start, offset);
    if res < 0 {
      return;
    }
    count := GetPiece(fs, res, offset, left, out, at, ch, j);
    res := 0;
  }

  lemma SameCluster(g: Geometry, offset: nat, offsetIn: nat, count: nat)
    requires g.perCluster > 0 && offsetIn == offset % g.ClusterSize() && 0 < count
    requires offsetIn + count <= g.ClusterSize()
    ensures Ahead(g, offset + count - 1) == Ahead(g, offset)
  {
    var size, last := g.ClusterSize(), offset + count - 1;
    Divided(offset, size);
    Divided(last, size);
    AheadGrows(g, offset, last);
    if Ahead(g, offset) < Ahead(g, last) {
      MulOrder(Ahead(g, offset) + 1, Ahead(g, last), size);
      NextBase(g, Ahead(g, offset));
    }
  }

  /** `n` bytes of the content from `offset` on have come to `at`. */
  ghost predicate HasRead(content: seq<Byte>, offset: nat, n: nat, was: seq<Byte>, now: seq<Byte>, at: nat) {
    && (n > 0 ==> offset + n <= |content|) && at + n <= |was|
    && now == Splice(was, at, Piece(content, offset, n))
  }

  lemma ReadNothing(content: seq<Byte>, offset: nat, was: seq<Byte>, at: nat)
    requires at <= |was|
    ensures HasRead(content, offset, 0, was, was, at)
  {
  }

  lemma ReadMore(content: seq<Byte>, offset: nat, n: nat, was: seq<Byte>, now: seq<Byte>, at: nat, count: nat)
    requires HasRead(content, offset, n, was, now, at) && offset + n + count <= |content| && at + n + count <= |was|
    ensures |now| == |was|
    ensures HasRead(content, offset, n + count, was, Splice(now, at + n, content[offset + n..offset + n + count]), at)
  {
    hide Splice;
    PieceMore(content, offset, n, count);
    SpliceSplice(was, at, Piece(content, offset, n), content[offset + n..offset + n + count]);
  }

  /** fat16_read_internal_from_stream: exactly the bytes of the content, and an error
      exactly when the walk to the last of them fails. `done` bytes have been read. */
  method ReadInternal(fs: FatDisk, start: nat, offset: nat, total: nat, out: array<Byte>, at: nat, ghost ch: seq<nat>)
    returns (res: int, ghost done: nat)
    requires fs.Valid() && fs.g.perCluster > 0 && out != fs.disk.data && at + total <= out.Length
    requires ch != [] && start == ch[0] && Links(fs.Now().fat, fs.g.limit, ch)
    requires FatContent.Within(fs.Now().data, ch)
    modifies fs.tables, fs.clusters, out
    ensures fs.Valid() && HasRead(Content(fs.Now().data, ch), offset, done, old(out[..]), out[..], at)
    ensures total == 0 || Readable(fs.g, ch, offset + total - 1) ==> res == total == done
    ensures total > 0 && !Readable(fs.g, ch, offset + total - 1) ==>
      res == Located(ch, 0, Ahead(fs.g, offset + total - 1))
  {
    hide FatDisk.Valid, FatDisk.Now, Geometry.Fits, Links, Located, FatContent.Within, Splice, Content,
         HasRead, Readable, Ahead;
    NowShaped(fs);
    ghost var was, content := out[..], Content(fs.Now().data, ch);
    done := 0;
    ReadNothing(content, offset, was, at);
    var bytesRead: nat, startingOffset: nat, left: nat := 0, offset, total;
    while left > 0
      invariant left + bytesRead == total && startingOffset == offset + bytesRead && done == bytesRead
      invariant bytesRead > 0 ==> Readable(fs.g, ch, startingOffset - 1)
      invariant fs.Valid() && HasRead(content, offset, bytesRead, was, out[..], at)
    {
      if !Readable(fs.g, ch, startingOffset) {
        FailsOn(fs.g, ch, startingOffset, offset + total - 1);
      }
      ghost var now := out[..];
      var count;
      res, count := ReadStep(fs, start, startingOffset, left, out, at + bytesRead, ch);
      if res < 0 {
        return;
      }
      ReadMore(content, offset, bytesRead, was, now, at, count);
      startingOffset, bytesRead, left := startingOffset + count, bytesRead + count, left - count;
      done := bytesRead;
    }
    res := bytesRead;
  }
}
