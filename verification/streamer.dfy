/** The disk stream (disk/streamer.c): byte access to a disk that is read and written by
    sectors. */
module Streamer {
  import opened Common

  type Byte = b: int | 0 <= b < 256

  const SECTOR: nat := 512

  /** The bytes `s` put at position `p`. */
  function Splice(d: seq<Byte>, p: nat, s: seq<Byte>): (r: seq<Byte>)
    requires p + |s| <= |d|
    ensures |r| == |d|
    ensures forall i :: 0 <= i < |d| ==> r[i] == if p <= i < p + |s| then s[i - p] else d[i]
  {
    d[..p] + s + d[p + |s|..]
  }

  lemma SliceOfSlice(s: seq<Byte>, at: nat, size: nat, off: nat, n: nat)
    requires at + size <= |s| && off + n <= size
    ensures s[at..at + size][off..off + n] == s[at + off..at + off + n]
  {
    var outer := s[at..at + size];
    var inner, direct := outer[off..off + n], s[at + off..at + off + n];
    assert |inner| == n && |direct| == n;
    forall i | 0 <= i < n ensures inner[i] == direct[i] {
      assert inner[i] == outer[off + i];
    }
  }

  /** As many of `total` bytes from `p` on as the disk has. */
  function Available(length: nat, p: nat, total: nat): nat {
    if p + total <= length then total else if p <= length then length - p else 0
  }

  function Got(d: seq<Byte>, p: nat, total: nat): (r: seq<Byte>)
    ensures |r| == Available(|d|, p, total)
  {
    if p <= |d| then d[p..p + Available(|d|, p, total)] else []
  }

  /** The position just behind the sector in which a transfer that ends at `end` stops. */
  function SectorEnd(end: nat): nat { (end / SECTOR + 1) * SECTOR }

  /** A partition of whole sectors; transfers inside it succeed. */
  class Disk {
    const data: array<Byte>

    constructor (data: array<Byte>)
      ensures this.data == data
    {
      this.data := data;
    }

    predicate Valid() { data.Length % SECTOR == 0 }

    /** disk_read_block of one sector. */
    method ReadBlock(sector: nat, buf: array<Byte>) returns (res: int)
      requires Valid() && buf.Length == SECTOR && buf != data
      modifies buf
      ensures res == if sector * SECTOR < data.Length then 0 else -EIO
      ensures res == 0 ==> sector * SECTOR + SECTOR <= data.Length
      ensures res == 0 ==> forall i :: 0 <= i < SECTOR ==> buf[i] == data[sector * SECTOR + i]
    {
      if sector * SECTOR >= data.Length {
        return -EIO;
      }
      WholeSector(sector, data.Length);
      forall i | 0 <= i < SECTOR {
        buf[i] := data[sector * SECTOR + i];
      }
      return 0;
    }

    /** disk_write_block of one sector. */
    method WriteBlock(sector: nat, buf: array<Byte>) returns (res: int)
      requires Valid() && buf.Length == SECTOR && buf != data
      modifies data
      ensures res == if sector * SECTOR < data.Length then 0 else -EIO
      ensures res == 0 ==> sector * SECTOR + SECTOR <= data.Length
      ensures res == 0 ==> forall i :: 0 <= i < data.Length ==>
        data[i] == if sector * SECTOR <= i < sector * SECTOR + SECTOR then buf[i - sector * SECTOR] else old(data[i])
      ensures res != 0 ==> forall i :: 0 <= i < data.Length ==> data[i] == old(data[i])
    {
      if sector * SECTOR >= data.Length {
        return -EIO;
      }
      WholeSector(sector, data.Length);
      forall i | 0 <= i < SECTOR {
        data[sector * SECTOR + i] := buf[i];
      }
      return 0;
    }
  }

  lemma WholeSector(sector: nat, length: nat)
    requires length % SECTOR == 0 && sector * SECTOR < length
    ensures sector * SECTOR + SECTOR <= length
  {
  }

  class DiskStream {
    const disk: Disk
    var pos: nat

    constructor (disk: Disk)
      ensures this.disk == disk && pos == 0
    {
      this.disk, pos := disk, 0;
    }

    method Seek(pos: nat) returns (res: int)
      modifies this
      ensures this.pos == pos && res == 0
    {
      this.pos := pos;
      return 0;
    }

    /** The part of a read that lies in one sector (streamer.c:58-69). */
    method ReadPiece(out: array<Byte>, start: nat, count: nat) returns (res: int)
      requires disk.Valid() && out != disk.data && start + count <= out.Length && pos % SECTOR + count <= SECTOR
      modifies this, out
      ensures res == if old(pos) < disk.data.Length then 0 else -EIO
      ensures res == 0 ==> old(pos) + count <= disk.data.Length && pos == old(pos) + count
      ensures res == 0 ==> out[..] == Splice(old(out[..]), start, disk.data[old(pos)..old(pos) + count])
      ensures res != 0 ==> pos == old(pos) && out[..] == old(out[..])
    {
      hide Splice;
      var sector, offset := pos / SECTOR, pos % SECTOR;
      var buf := new Byte[SECTOR](_ => 0);
      res := disk.ReadBlock(sector, buf);
      if res < 0 {
        return;
      }
      ghost var source := disk.data[pos..pos + count];
      assert forall k :: 0 <= k < count ==> source[k] == buf[offset + k];
      var i := 0;
      while i < count
        invariant 0 <= i <= count
        invariant forall k :: 0 <= k < out.Length ==>
          out[k] == if start <= k < start + i then source[k - start] else old(out[k])
        modifies out
      {
        out[start + i] := buf[offset + i];
        i := i + 1;
      }
      pos := pos + count;
      SpliceIs(old(out[..]), start, source, out[..]);
    }

    /** diskstreamer_read: exactly the bytes from the position on, as far as the disk goes.
        It succeeds exactly when the transfer ends before the last byte of the disk, since
        one that ends on a sector boundary goes on to the sector behind it for nothing. */
    method Read(out: array<Byte>, start: nat, total: nat) returns (res: int)
      requires disk.Valid() && out != disk.data && start + total <= out.Length
      modifies this, out
      ensures res == if old(pos) + total < disk.data.Length then 0 else -EIO
      ensures pos == old(pos) + Available(disk.data.Length, old(pos), total)
      ensures out[..] == Splice(old(out[..]), start, Got(disk.data[..], old(pos), total))
      decreases total + pos % SECTOR
    {
      hide Splice, Got;
      ghost var d, was := disk.data[..], out[..];
      var offset := pos % SECTOR;
      var toRead := total;
      var overflow := offset + toRead >= SECTOR;
      if overflow {
        toRead := toRead - (offset + toRead - SECTOR);
      }
      SectorCovers(pos, disk.data.Length);
      res := ReadPiece(out, start, toRead);
      if res < 0 {
        GotNothing(d, pos, total);
        SpliceNothing(was, start);
        return;
      }
      GotMore(d, old(pos), toRead, total);
      if overflow {
        SpliceSplice(was, start, Got(d, old(pos), toRead), Got(d, pos, total - toRead));
        res := Read(out, start + toRead, total - toRead);
      }
    }

    /** The part of a write that lies in one sector (streamer.c:88-115). The buffer starts
        with whatever the stack held and is filled from the disk where `keep` says so. */
    method WritePiece(s: seq<Byte>, keep: bool, stack: seq<Byte>) returns (res: int)
      requires disk.Valid() && pos % SECTOR + |s| <= SECTOR == |stack| && (!keep ==> pos % SECTOR == 0)
      modifies this, disk.data
      ensures res == if old(pos) < disk.data.Length then 0 else -EIO
      ensures res == 0 ==> SectorEnd(old(pos)) <= disk.data.Length && pos == old(pos) + |s|
      ensures res == 0 ==> disk.data[..] == Splice(old(disk.data[..]), old(pos), if keep then s else s + stack[|s|..])
      ensures res != 0 ==> pos == old(pos) && disk.data[..] == old(disk.data[..])
    {
      hide Splice;
      ghost var d := disk.data[..];
      var sector, offset := pos / SECTOR, pos % SECTOR;
      var buf := new Byte[SECTOR](i requires 0 <= i < |stack| => stack[i]);
      if keep {
        res := disk.ReadBlock(sector, buf);
        if res < 0 {
          return;
        }
      }
      ghost var read := buf[..];
      var i := 0;
      while i < |s|
        invariant 0 <= i <= |s|
        invariant forall k :: 0 <= k < SECTOR ==> buf[k] == if offset <= k < offset + i then s[k - offset] else read[k]
        modifies buf
      {
        buf[offset + i] := s[i];
        i := i + 1;
      }
      res := disk.WriteBlock(sector, buf);
      if res < 0 {
        return;
      }
      SpliceIs(d, pos, if keep then s else s + stack[|s|..], disk.data[..]);
      pos := pos + |s|;
    }

    /** diskstreamer_write as the head of the file describes it: a sector that is not
        overwritten as a whole is read first. Exactly the range is replaced. */
    method Write(s: seq<Byte>) returns (res: int)
      requires disk.Valid()
      modifies this, disk.data
      ensures res == if old(pos) + |s| < disk.data.Length then 0 else -EIO
      ensures pos == old(pos) + Available(disk.data.Length, old(pos), |s|)
      ensures old(pos) <= disk.data.Length ==>
        disk.data[..] == Splice(old(disk.data[..]), old(pos), s[..Available(disk.data.Length, old(pos), |s|)])
      ensures old(pos) > disk.data.Length ==> disk.data[..] == old(disk.data[..])
      decreases |s| + pos % SECTOR
    {
      hide Splice;
      ghost var d := disk.data[..];
      var offset := pos % SECTOR;
      var toWrite := |s|;
      var overflow := offset + toWrite >= SECTOR;
      if overflow {
        toWrite := toWrite - (offset + toWrite - SECTOR);
      }
      SectorCovers(pos, disk.data.Length);
      res := WritePiece(s[..toWrite], offset != 0 || !overflow, Zeroes());
      assert toWrite == SECTOR ==> s[..toWrite] + Zeroes()[SECTOR..] == s[..toWrite];
      if res < 0 {
        assert s[..0] == [];
        SpliceNothing(d, if pos <= |d| then pos else 0);
        return;
      }
      if overflow {
        var rest := s[toWrite..];
        ghost var p := pos;
        ghost var fits := Available(|d|, p, |rest|);
        assert s[..toWrite] + rest[..fits] == s[..toWrite + fits];
        SpliceSplice(d, old(pos), s[..toWrite], rest[..fits]);
        res := Write(rest);
      } else {
        assert s[..toWrite] == s;
      }
    }

    /** diskstreamer_write as it stands (streamer.c:79-122). `stack` is what the
        uninitialised buffer would hold, given by disk position. */
    method WriteAsWritten(s: seq<Byte>, stack: seq<Byte>) returns (res: int)
      requires disk.Valid() && |stack| == disk.data.Length && pos <= disk.data.Length
      modifies this, disk.data
      ensures res == if old(pos) + |s| < disk.data.Length then 0 else -EIO
      ensures pos == old(pos) + Available(disk.data.Length, old(pos), |s|)
      ensures disk.data[..] == WrittenAsIs(old(disk.data[..]), old(pos), s, stack)
      decreases |s| + pos % SECTOR
    {
      hide Splice, WrittenAsIs;
      ghost var d := disk.data[..];
      var offset := pos % SECTOR;
      var toWrite := |s|;
      var overflow := offset + toWrite >= SECTOR;
      var keep := offset != 0 || (overflow && toWrite < SECTOR);
      if overflow {
        toWrite := toWrite - (offset + toWrite - SECTOR);
      }
      SectorCovers(pos, disk.data.Length);
      var buf := if SectorEnd(pos) <= |stack| then stack[pos - offset..SectorEnd(pos)] else Zeroes();
      ghost var p := pos;
      res := WritePiece(s[..toWrite], keep, buf);
      if res < 0 {
        AsIsNothing(d, p, s, stack);
        return;
      }
      if overflow {
        AsIsMore(d, p, s, toWrite, stack, buf);
        res := WriteAsWritten(s[toWrite..], stack);
      } else {
        assert s[..toWrite] == s;
        AsIsLast(d, p, s, stack, buf);
      }
    }
  }

  /** The writes that end in the sector they start in, but not at its beginning. */
  predicate WithinSector(p: nat, n: nat) { 0 < p % SECTOR && p % SECTOR + n < SECTOR }

  /** What comes behind the range up to the end of the last sector: bytes from the stack,
      unless the write stays within a sector or runs into the end of the disk. */
  function Trail(p: nat, n: nat, stack: seq<Byte>): (r: seq<Byte>)
    requires |stack| % SECTOR == 0
    ensures p + n + |r| <= |stack| || r == []
  {
    if p + n >= |stack| || WithinSector(p, n) then []
    else
      SectorCovers(p + n, |stack|);
      stack[p + n..SectorEnd(p + n)]
  }

  /** What a write as it stands leaves on the disk. */
  function WrittenAsIs(d: seq<Byte>, p: nat, s: seq<Byte>, stack: seq<Byte>): (r: seq<Byte>)
    requires p <= |d| == |stack| && |d| % SECTOR == 0
    ensures |r| == |d|
  {
    Splice(d, p, s[..Available(|d|, p, |s|)] + Trail(p, |s|, stack))
  }

  lemma AsIsNothing(d: seq<Byte>, p: nat, s: seq<Byte>, stack: seq<Byte>)
    requires p == |d| == |stack| && |d| % SECTOR == 0
    ensures WrittenAsIs(d, p, s, stack) == d
  {
  }

  lemma AsIsLast(d: seq<Byte>, p: nat, s: seq<Byte>, stack: seq<Byte>, buf: seq<Byte>)
    requires p < |d| == |stack| && |d| % SECTOR == 0 && p % SECTOR + |s| < SECTOR && SectorEnd(p) <= |stack|
    requires buf == stack[p - p % SECTOR..SectorEnd(p)]
    ensures p % SECTOR != 0 ==> WrittenAsIs(d, p, s, stack) == Splice(d, p, s)
    ensures p % SECTOR == 0 ==> WrittenAsIs(d, p, s, stack) == Splice(d, p, s + buf[|s|..])
  {
    hide Splice;
    SameSector(p, |s|);
    assert s[..|s|] == s && s + [] == s;
    if p % SECTOR == 0 {
      assert stack[p..SectorEnd(p)][|s|..] == stack[p + |s|..SectorEnd(p)];
    }
  }

  lemma SameSector(p: nat, n: nat)
    requires p % SECTOR + n < SECTOR
    ensures SectorEnd(p + n) == SectorEnd(p) && p + n < SectorEnd(p)
    ensures WithinSector(p, n) <==> p % SECTOR != 0
  {
  }

  lemma NextSector(p: nat, n: nat, m: nat)
    requires p % SECTOR + n == SECTOR && n <= m
    ensures p + n == SectorEnd(p) && !WithinSector(p, m) && !WithinSector(p + n, m - n)
  {
  }

  /** A write that fills its sector and goes on. */
  lemma AsIsMore(d: seq<Byte>, p: nat, s: seq<Byte>, n: nat, stack: seq<Byte>, buf: seq<Byte>)
    requires p < |d| == |stack| && |d| % SECTOR == 0 && n <= |s| && p % SECTOR + n == SECTOR && SectorEnd(p) <= |stack|
    requires |buf| == SECTOR
    ensures p % SECTOR == 0 ==> s[..n] + buf[n..] == s[..n]
    ensures WrittenAsIs(Splice(d, p, s[..n]), p + n, s[n..], stack) == WrittenAsIs(d, p, s, stack)
  {
    hide Splice, Trail, SectorEnd, WithinSector;
    var k, tail := Available(|d|, p, |s|), Trail(p, |s|, stack);
    SameTrail(p, n, |s|, stack);
    Rejoined(s, n, k, tail);
    SpliceSplice(d, p, s[..n], s[n..][..k - n] + tail);
  }

  lemma SameTrail(p: nat, n: nat, m: nat, stack: seq<Byte>)
    requires |stack| % SECTOR == 0 && p % SECTOR + n == SECTOR && n <= m
    ensures p + n == SectorEnd(p) && Trail(p + n, m - n, stack) == Trail(p, m, stack)
  {
    NextSector(p, n, m);
  }

  lemma Rejoined(s: seq<Byte>, n: nat, k: nat, tail: seq<Byte>)
    requires n <= k <= |s|
    ensures s[..n] + (s[n..][..k - n] + tail) == s[..k] + tail
  {
  }

  /** Replacing exactly the range, whatever the stack holds: the write as it stands does
      that exactly for the writes that stay within a sector. */
  lemma AsIsSplicesIff(d: seq<Byte>, p: nat, s: seq<Byte>)
    requires p + |s| < |d| && |d| % SECTOR == 0
    ensures (forall stack :: |stack| == |d| ==> WrittenAsIs(d, p, s, stack) == Splice(d, p, s))
      <==> WithinSector(p, |s|)
  {
    assert s[..|s|] == s && s + [] == s;
    hide Splice;
    if !WithinSector(p, |s|) {
      var other: Byte := if d[p + |s|] == 0 then 1 else 0;
      var stack: seq<Byte> := seq(|d|, _ => other);
      Clobbers(d, p, s, stack);
    }
  }

  /** The byte behind the range comes from the stack. */
  lemma Clobbers(d: seq<Byte>, p: nat, s: seq<Byte>, stack: seq<Byte>)
    requires p + |s| < |d| == |stack| && |d| % SECTOR == 0 && !WithinSector(p, |s|) && stack[p + |s|] != d[p + |s|]
    ensures WrittenAsIs(d, p, s, stack) != Splice(d, p, s)
  {
    var tail := Trail(p, |s|, stack);
    assert tail[0] == stack[p + |s|] by {
      SectorCovers(p + |s|, |stack|);
    }
    hide Trail, WithinSector, SectorEnd;
    assert Splice(d, p, s + tail)[p + |s|] == tail[0];
  }

  /** One byte written at the start of a sector of zeros: the 511 bytes behind it become
      what the stack held. */
  lemma ClobberExample()
    ensures var d, stack := seq(2 * SECTOR, _ => 0 as Byte), seq(2 * SECTOR, _ => 5 as Byte);
            WrittenAsIs(d, 0, [7], stack) == [7] + seq(SECTOR - 1, _ => 5 as Byte) + seq(SECTOR, _ => 0 as Byte)
  {
  }

  /** A write, a seek back and a read give the bytes back. */
  method WriteSeekRead(stream: DiskStream, s: seq<Byte>) returns (res: int, out: array<Byte>)
    requires stream.disk.Valid() && stream.pos + |s| < stream.disk.data.Length
    modifies stream, stream.disk.data
    ensures res == 0 && fresh(out) && out[..] == s && stream.pos == old(stream.pos) + |s|
    ensures stream.disk.data[..] == Splice(old(stream.disk.data[..]), old(stream.pos), s)
  {
    var start := stream.pos;
    res := stream.Write(s);
    assert s[..|s|] == s;
    res := stream.Seek(start);
    out := new Byte[|s|](_ => 0);
    res := stream.Read(out, 0, |s|);
  }

  function Zeroes(): (r: seq<Byte>)
    ensures |r| == SECTOR
  {
    seq(SECTOR, _ => 0)
  }

  lemma SectorCovers(pos: nat, length: nat)
    requires length % SECTOR == 0
    ensures pos < length ==> SectorEnd(pos) <= length
  {
  }

  lemma SpliceIs(d: seq<Byte>, p: nat, s: seq<Byte>, r: seq<Byte>)
    requires p + |s| <= |d| == |r|
    requires forall i :: 0 <= i < |d| ==> r[i] == if p <= i < p + |s| then s[i - p] else d[i]
    ensures r == Splice(d, p, s)
  {
  }

  lemma SpliceNothing(d: seq<Byte>, p: nat)
    requires p <= |d|
    ensures Splice(d, p, []) == d
  {
  }

  lemma GotNothing(d: seq<Byte>, p: nat, total: nat)
    requires p >= |d|
    ensures Got(d, p, total) == []
  {
  }

  lemma GotMore(d: seq<Byte>, p: nat, n: nat, total: nat)
    requires n <= total && p + n <= |d|
    ensures Got(d, p, n) == d[p..p + n] && Got(d, p, total) == Got(d, p, n) + Got(d, p + n, total - n)
  {
  }

  lemma SpliceSplice(d: seq<Byte>, p: nat, a: seq<Byte>, b: seq<Byte>)
    requires p + |a| + |b| <= |d|
    ensures Splice(Splice(d, p, a), p + |a|, b) == Splice(d, p, a + b)
  {
  }
}
