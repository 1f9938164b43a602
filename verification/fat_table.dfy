/** The file allocation table of fs/fat/fat16.c as a value: chains of clusters, the walks
    along them, freeing, growing and cutting them, and the files that share the table. */
module FatTable {
  import opened Common

  const END: nat := 0xFFF8
  const LAST: nat := 0xFFFF
  /** What the code takes for the mark of a bad cluster; FAT16 has 0xFFF7. */
  const BAD: nat := 0xFF7

  type Fat = s: seq<nat> | forall k :: 0 <= k < |s| ==> s[k] <= 0xFFFF

  /** The entry of the cluster at `i` names the next one, or ends the chain. */
  predicate LinkAt(fat: Fat, ch: seq<nat>, i: nat)
    requires i < |ch| && ch[i] < |fat|
  {
    if i + 1 < |ch| then fat[ch[i]] == ch[i + 1] else fat[ch[i]] >= END
  }

  /** `ch` is a whole chain of clusters below `limit`, linked in this order. */
  predicate Links(fat: Fat, limit: nat, ch: seq<nat>)
    requires limit <= |fat|
  {
    && (forall i :: 0 <= i < |ch| ==> 2 <= ch[i] < limit)
    && (forall i :: 0 <= i < |ch| ==> LinkAt(fat, ch, i))
    && (forall i, j :: 0 <= i < j < |ch| ==> ch[i] != ch[j])
  }

  lemma TakenOf(fat: Fat, limit: nat, ch: seq<nat>, k: nat)
    requires limit <= |fat| && Links(fat, limit, ch) && k in ch
    ensures 2 <= k < limit && fat[k] != 0
  {
    var i :| 0 <= i < |ch| && ch[i] == k;
    assert LinkAt(fat, ch, i);
  }

  /** Every link leads to a cluster below `limit` or ends the chain. */
  predicate InRange(fat: Fat, limit: nat)
    requires limit <= |fat|
  {
    forall k :: 0 <= k < limit ==> fat[k] < limit || fat[k] >= END
  }

  // ------------------------------------------------------- walking a chain

  /** What an entry says of the cluster behind. */
  datatype Link = Next(cluster: nat) | NoMore | Unusable

  /** As fat16.c:391-405 reads it. */
  function LinkAsWritten(entry: nat): Link {
    if entry >= END then NoMore
    else if entry == BAD || 0xFFF0 <= entry <= 0xFFF6 || entry == 0 then Unusable
    else Next(entry)
  }

  /** As FAT16 has it: 0 is free, 1 and 0xFFF0 to 0xFFF6 are reserved, 0xFFF7 is bad. */
  function LinkOfFat16(entry: nat): Link {
    if entry >= END then NoMore else if entry < 2 || 0xFFF0 <= entry <= 0xFFF7 then Unusable else Next(entry)
  }

  /** The code reads an entry as FAT16 does but for three: it follows 1 and the bad mark
      0xFFF7, and gives up on a link to cluster 4087. */
  lemma LinkIff(entry: nat)
    requires entry <= 0xFFFF
    ensures LinkAsWritten(entry) == LinkOfFat16(entry) <==> entry != 1 && entry != BAD && entry != 0xFFF7
    ensures LinkAsWritten(0xFFF7) == Next(0xFFF7) && LinkAsWritten(4087) == Unusable && LinkOfFat16(4087) == Next(4087)
  {
  }

  /** The first `n` links from `c` on stay below `limit`, as far as they are followed. */
  predicate Walkable(fat: Fat, limit: nat, c: nat, n: nat)
    requires limit <= |fat|
    decreases n
  {
    c < limit && (n == 0
      || match LinkAsWritten(fat[c]) case Next(next) => Walkable(fat, limit, next, n - 1) case _ => true)
  }

  /** fat16_get_cluster_for_offset on any table: `n` links are followed from `c`. */
  function Walk(fat: Fat, limit: nat, c: nat, n: nat): (r: int)
    requires limit <= |fat| && Walkable(fat, limit, c, n)
    ensures r < limit
    decreases n
  {
    if n == 0 then c
    else
      match LinkAsWritten(fat[c])
      case NoMore => -EOUTOFRANGE
      case Unusable => -EIO
      case Next(next) => Walk(fat, limit, next, n - 1)
  }

  /** Cluster 4087 is among the `n` clusters behind position `i`. */
  predicate MeetsBad(ch: seq<nat>, i: nat, n: nat) {
    exists k :: i < k <= i + n && k < |ch| && ch[k] == BAD
  }

  /** Where the walk along a whole chain ends. */
  function Located(ch: seq<nat>, i: nat, n: nat): int {
    if MeetsBad(ch, i, n) then -EIO else if i + n < |ch| then ch[i + n] else -EOUTOFRANGE
  }

  /** On a whole chain the walk finds the cluster exactly when the chain is long enough
      and cluster 4087 is not met on the way. */
  lemma {:induction false} WalkIff(fat: Fat, limit: nat, ch: seq<nat>, i: nat, n: nat)
    requires limit <= |fat| && limit <= 0xFFF0 && Links(fat, limit, ch) && i < |ch|
    ensures Walkable(fat, limit, ch[i], n)
    ensures Walk(fat, limit, ch[i], n) == Located(ch, i, n)
    ensures Walk(fat, limit, ch[i], n) >= 0 <==> i + n < |ch| && !MeetsBad(ch, i, n)
    decreases n
  {
    if n > 0 {
      assert LinkAt(fat, ch, i);
      if i + 1 < |ch| && ch[i + 1] != BAD {
        WalkIff(fat, limit, ch, i + 1, n - 1);
        assert MeetsBad(ch, i, n) <==> MeetsBad(ch, i + 1, n - 1);
      }
    }
  }

  // -------------------------------------------------------------- freeing

  function NonZero(fat: Fat, k: nat): (r: set<nat>)
    requires k <= |fat|
    ensures forall j: nat :: j in r <==> j < k && fat[j] != 0
  {
    set j | 0 <= j < k && fat[j] != 0
  }

  /** The table after fat16_free_cluster_chain from `c`. */
  function Freed(fat: Fat, limit: nat, c: nat): (r: Fat)
    requires limit <= |fat|
    ensures |r| == |fat|
    decreases |NonZero(fat, |fat|)|
  {
    if 2 <= c < limit && fat[c] != 0 then
      FreeingShrinks(fat, c);
      Freed(fat[c := 0], limit, fat[c])
    else fat
  }

  lemma FreeingShrinks(fat: Fat, c: nat)
    requires c < |fat| && fat[c] != 0
    ensures |NonZero(fat[c := 0], |fat|)| < |NonZero(fat, |fat|)|
  {
    assert NonZero(fat[c := 0], |fat|) == NonZero(fat, |fat|) - {c};
  }

  /** The cluster `n` links behind `c`; 0 once a link leads out of the data clusters. */
  function Nth(fat: Fat, limit: nat, c: nat, n: nat): nat
    requires limit <= |fat|
    decreases n
  {
    if n == 0 then c
    else
      var p := Nth(fat, limit, c, n - 1);
      if 2 <= p < limit then fat[p] else 0
  }

  ghost predicate Reachable(fat: Fat, limit: nat, c: nat, k: nat)
    requires limit <= |fat|
  {
    2 <= k < limit && exists n: nat :: Nth(fat, limit, c, n) == k
  }

  /** Freeing zeroes exactly the entries that can be reached, on any table, with cycles or
      without. */
  lemma {:induction false} FreedIsReachable(fat: Fat, limit: nat, c: nat)
    requires limit <= |fat|
    ensures forall k :: 0 <= k < |fat| ==>
      Freed(fat, limit, c)[k] == if Reachable(fat, limit, c, k) then 0 else fat[k]
    decreases |NonZero(fat, |fat|)|
  {
    if 2 <= c < limit && fat[c] != 0 {
      var less := fat[c := 0];
      FreeingShrinks(fat, c);
      FreedIsReachable(less, limit, fat[c]);
      forall k | 0 <= k < |fat| && k != c
        ensures Reachable(fat, limit, c, k) <==> Reachable(less, limit, fat[c], k)
      {
        if Reachable(fat, limit, c, k) {
          var n: nat :| Nth(fat, limit, c, n) == k;
          var j := ReachedBehind(fat, limit, c, n);
        }
        if Reachable(less, limit, fat[c], k) {
          var n: nat :| Nth(less, limit, fat[c], n) == k;
          ReachedBefore(fat, limit, c, n);
        }
      }
      assert Nth(fat, limit, c, 0) == c;
      assert Reachable(fat, limit, c, c);
    } else {
      forall k | 0 <= k < |fat| && Reachable(fat, limit, c, k) ensures fat[k] == 0 {
        var n: nat :| Nth(fat, limit, c, n) == k;
        NothingBehind(fat, limit, c, n);
      }
    }
  }

  lemma {:induction false} ReachedBehind(fat: Fat, limit: nat, c: nat, n: nat) returns (j: nat)
    requires limit <= |fat| && 2 <= c < limit && fat[c] != 0
    requires 2 <= Nth(fat, limit, c, n) < limit && Nth(fat, limit, c, n) != c
    ensures Nth(fat[c := 0], limit, fat[c], j) == Nth(fat, limit, c, n)
    decreases n
  {
    var less, p := fat[c := 0], Nth(fat, limit, c, n - 1);
    if p == c {
      j := 0;
    } else {
      j := ReachedBehind(fat, limit, c, n - 1);
      j := j + 1;
    }
  }

  lemma {:induction false} ReachedBefore(fat: Fat, limit: nat, c: nat, n: nat)
    requires limit <= |fat| && 2 <= c < limit && fat[c] != 0
    requires Nth(fat[c := 0], limit, fat[c], n) >= 2
    ensures Nth(fat, limit, c, n + 1) == Nth(fat[c := 0], limit, fat[c], n)
    decreases n
  {
    if n == 0 {
      assert Nth(fat, limit, c, 0) == c;
    } else {
      ReachedBefore(fat, limit, c, n - 1);
    }
  }

  lemma {:induction false} NothingBehind(fat: Fat, limit: nat, c: nat, n: nat)
    requires limit <= |fat| && (2 <= c < limit ==> fat[c] == 0)
    ensures Nth(fat, limit, c, n) == if n == 0 then c else 0
    decreases n
  {
    if n > 0 {
      NothingBehind(fat, limit, c, n - 1);
    }
  }

  /** From the head of a whole chain exactly the chain is reached. */
  lemma {:induction false} NthOfChain(fat: Fat, limit: nat, ch: seq<nat>, n: nat)
    requires limit <= |fat| && limit <= END && Links(fat, limit, ch) && ch != []
    ensures n < |ch| ==> Nth(fat, limit, ch[0], n) == ch[n]
    ensures n >= |ch| ==> !(2 <= Nth(fat, limit, ch[0], n) < limit)
    decreases n
  {
    if n > 0 {
      NthOfChain(fat, limit, ch, n - 1);
      if n <= |ch| {
        assert LinkAt(fat, ch, n - 1);
      }
    }
  }

  /** Freeing a whole chain zeroes exactly the chain. */
  lemma FreedChain(fat: Fat, limit: nat, ch: seq<nat>)
    requires limit <= |fat| && limit <= END && Links(fat, limit, ch) && ch != []
    ensures forall k :: 0 <= k < |fat| ==> Freed(fat, limit, ch[0])[k] == if k in ch then 0 else fat[k]
  {
    FreedIsReachable(fat, limit, ch[0]);
    forall k | 0 <= k < |fat| ensures Reachable(fat, limit, ch[0], k) <==> k in ch {
      if k in ch {
        var i :| 0 <= i < |ch| && ch[i] == k;
        NthOfChain(fat, limit, ch, i);
      }
      if Reachable(fat, limit, ch[0], k) {
        var n: nat :| Nth(fat, limit, ch[0], n) == k;
        NthOfChain(fat, limit, ch, n);
      }
    }
  }

  /** Every entry that can be reached from `c` leads to a cluster below `limit` or ends the
      chain. */
  ghost predicate StaysInside(fat: Fat, limit: nat, c: nat)
    requires limit <= |fat|
  {
    && (c < limit || END <= c)
    && forall k: nat :: Reachable(fat, limit, c, k) ==> fat[k] < limit || END <= fat[k]
  }

  /** Outside of the clusters nothing is reached. */
  lemma NoneInside(fat: Fat, limit: nat, c: nat)
    requires 2 <= limit <= |fat| && limit <= END && (c < 2 || END <= c)
    ensures StaysInside(fat, limit, c)
  {
    forall k: nat | Reachable(fat, limit, c, k)
      ensures false
    {
      var n: nat :| Nth(fat, limit, c, n) == k;
      NothingBehind(fat, limit, c, n);
    }
  }

  /** One entry freed: what can be reached behind it still stays inside. */
  lemma InsideBehind(fat: Fat, limit: nat, c: nat)
    requires limit <= |fat| && limit <= END && 2 <= c < limit && StaysInside(fat, limit, c)
    ensures StaysInside(fat[c := 0], limit, fat[c])
  {
    assert Nth(fat, limit, c, 0) == c && Reachable(fat, limit, c, c);
    var less := fat[c := 0];
    if fat[c] != 0 {
      forall k: nat | Reachable(less, limit, fat[c], k)
        ensures less[k] < limit || END <= less[k]
      {
        var n: nat :| Nth(less, limit, fat[c], n) == k;
        ReachedBefore(fat, limit, c, n);
        assert Reachable(fat, limit, c, k);
      }
    } else {
      NoneInside(less, limit, 0);
    }
  }

  /** From any cluster of a whole chain on. */
  lemma ChainInside(fat: Fat, limit: nat, ch: seq<nat>, i: nat)
    requires limit <= |fat| && limit <= END && Links(fat, limit, ch) && i < |ch|
    ensures StaysInside(fat, limit, ch[i])
  {
    var rest := ch[i..];
    forall j | 0 <= j < |rest| ensures LinkAt(fat, rest, j) {
      assert LinkAt(fat, ch, i + j);
    }
    forall k: nat | Reachable(fat, limit, ch[i], k)
      ensures fat[k] < limit || END <= fat[k]
    {
      var n: nat :| Nth(fat, limit, ch[i], n) == k;
      NthOfChain(fat, limit, rest, n);
      assert LinkAt(fat, rest, n);
    }
  }

  // -------------------------------------------------- growing and cutting

  /** The first free entry from `k` on; the length of the table if there is none. */
  function LeastFree(fat: Fat, k: nat): (r: nat)
    requires k <= |fat|
    ensures k <= r <= |fat| && (r < |fat| ==> fat[r] == 0)
    ensures forall j :: k <= j < r ==> fat[j] != 0
    decreases |fat| - k
  {
    if k == |fat| || fat[k] == 0 then k else LeastFree(fat, k + 1)
  }

  function Free(fat: Fat, limit: nat): (r: set<nat>)
    requires limit <= |fat|
    ensures forall k: nat :: k in r <==> 2 <= k < limit && fat[k] == 0
  {
    set k | 2 <= k < limit && fat[k] == 0
  }

  /** fat16_allocate_cluster: the first free entry becomes the end of the chain. */
  function Appended(fat: Fat, ch: seq<nat>, c: nat): (r: Fat)
    requires 2 <= c < |fat| && c <= 0xFFFF && forall i :: 0 <= i < |ch| ==> ch[i] < |fat|
    ensures |r| == |fat|
  {
    if ch == [] then fat[c := LAST] else fat[c := LAST][ch[|ch| - 1] := c]
  }

  /** The chain stays whole, and no other entry changes; `u` is where the search for a free
      entry ends. */
  lemma AppendLinks(fat: Fat, limit: nat, u: nat, ch: seq<nat>, c: nat)
    requires u <= limit <= |fat| && limit <= 0xFFF0 && Links(fat, limit, ch) && c in Free(fat, u)
    ensures c !in ch && Links(Appended(fat, ch, c), limit, ch + [c])
    ensures forall k :: 0 <= k < |fat| && k !in ch + [c] ==> Appended(fat, ch, c)[k] == fat[k]
    ensures Free(Appended(fat, ch, c), u) == Free(fat, u) - {c}
    ensures |Free(Appended(fat, ch, c), u)| == |Free(fat, u)| - 1
    ensures InRange(fat, limit) ==> InRange(Appended(fat, ch, c), limit)
  {
    var now, more, last := Appended(fat, ch, c), ch + [c], |ch| - 1;
    if c in ch {
      TakenOf(fat, limit, ch, c);
    }
    forall i | 0 <= i < |more| ensures LinkAt(now, more, i) {
      if i < last {
        assert LinkAt(fat, ch, i);
        assert ch[i] != ch[last];
      }
    }
    forall k | 0 <= k < |fat| && k !in more ensures now[k] == fat[k] {
      assert k != c && (ch != [] ==> ch[last] in more);
    }
    if ch != [] {
      assert LinkAt(fat, ch, last);
    }
    assert Free(now, u) == Free(fat, u) - {c};
  }

  /** A chain cut behind its first `n` clusters: the rest is freed, the last kept entry
      ends the chain. */
  function CutTable(fat: Fat, limit: nat, ch: seq<nat>, n: nat): (r: Fat)
    requires limit <= |fat| && Links(fat, limit, ch) && n <= |ch|
    ensures |r| == |fat|
  {
    var freed := if n < |ch| then Freed(fat, limit, ch[n]) else fat;
    if n == 0 then freed else freed[ch[n - 1] := LAST]
  }

  lemma CutIs(fat: Fat, limit: nat, ch: seq<nat>, n: nat)
    requires limit <= |fat| && limit <= END && Links(fat, limit, ch) && n <= |ch|
    ensures forall k :: 0 <= k < |fat| ==>
      CutTable(fat, limit, ch, n)[k] == if k in ch[n..] then 0 else if n > 0 && k == ch[n - 1] then LAST else fat[k]
  {
    if n < |ch| {
      var rest := ch[n..];
      forall i | 0 <= i < |rest| ensures LinkAt(fat, rest, i) {
        assert LinkAt(fat, ch, n + i);
      }
      hide Freed;
      FreedChain(fat, limit, rest);
    }
  }

  /** The first `n` clusters stay a whole chain, the others become free, and nothing else
      changes. */
  lemma CutLinks(fat: Fat, limit: nat, ch: seq<nat>, n: nat)
    requires limit <= |fat| && limit <= END && Links(fat, limit, ch) && n <= |ch|
    ensures Links(CutTable(fat, limit, ch, n), limit, ch[..n])
    ensures forall k :: 0 <= k < |fat| && k !in ch ==> CutTable(fat, limit, ch, n)[k] == fat[k]
    ensures forall k :: k in ch && k !in ch[..n] ==> CutTable(fat, limit, ch, n)[k] == 0
    ensures InRange(fat, limit) ==> InRange(CutTable(fat, limit, ch, n), limit)
  {
    var now, kept, rest := CutTable(fat, limit, ch, n), ch[..n], ch[n..];
    CutIs(fat, limit, ch, n);
    assert ch == kept + rest;
    hide CutTable;
    forall i | 0 <= i < n ensures LinkAt(now, kept, i) {
      assert LinkAt(fat, ch, i);
      assert ch[i] !in rest;
    }
  }

  /** Where fat16_truncate cuts (fat16.c:1251-1258): the cluster reached by `n - 1` links,
      or the first number that is no data cluster. */
  function CutPoint(fat: Fat, limit: nat, c: nat, n: nat): nat
    requires limit <= |fat|
    decreases n
  {
    if n <= 1 || c < 2 || c >= limit then c else CutPoint(fat, limit, fat[c], n - 1)
  }

  /** The cut falls on a cluster of the file exactly when the file has that many. */
  lemma {:induction false} CutPointIff(fat: Fat, limit: nat, ch: seq<nat>, i: nat, n: nat)
    requires limit <= |fat| && limit <= END && Links(fat, limit, ch) && i < |ch| && n > 0
    ensures CutPoint(fat, limit, ch[i], n) < limit <==> i + n <= |ch|
    ensures i + n <= |ch| ==> CutPoint(fat, limit, ch[i], n) == ch[i + n - 1]
    decreases n
  {
    assert LinkAt(fat, ch, i);
    if n > 1 && i + 1 < |ch| {
      CutPointIff(fat, limit, ch, i + 1, n - 1);
    }
  }

  // ------------------------------------------------- the files of a volume

  type Files = map<nat, seq<nat>>

  /** The mark of a bad cluster in FAT16. */
  const BAD_MARK: nat := 0xFFF7

  /** The entries in use are exactly the disjoint union of the files' chains. Entries that
      carry the bad mark belong to no file. */
  ghost predicate Partition(fat: Fat, limit: nat, files: Files)
    requires limit <= |fat|
  {
    && (forall f :: f in files ==> Links(fat, limit, files[f]))
    && (forall f, g, k :: f in files && g in files && k in files[f] && k in files[g] ==> f == g)
    && (forall k :: 2 <= k < limit && fat[k] != 0 && fat[k] != BAD_MARK ==> exists f :: f in files && k in files[f])
  }

  /** Entries that one file's chain gains or loses leave the other files alone. */
  lemma OthersKept(fat: Fat, now: Fat, limit: nat, files: Files, f: nat, ch: seq<nat>)
    requires |now| == |fat| && limit <= |fat| && limit <= END && Partition(fat, limit, files) && f in files
    requires Links(now, limit, ch)
    requires forall k :: 0 <= k < |fat| && k !in files[f] && k !in ch ==> now[k] == fat[k]
    requires forall k :: k in ch && k !in files[f] ==> 0 <= k < |fat| && fat[k] == 0
    requires forall k :: k in files[f] && k !in ch ==> now[k] == 0
    ensures Partition(now, limit, files[f := ch])
  {
    var after := files[f := ch];
    forall g | g in files && g != f ensures Links(now, limit, files[g]) {
      OtherKept(fat, now, limit, files[g], files[f], ch);
    }
    forall g, k | g in files && g != f && k in files[g] && k in ch ensures false {
      TakenOf(fat, limit, files[g], k);
    }
    forall k | 2 <= k < limit && now[k] != 0 && now[k] != BAD_MARK ensures exists g :: g in after && k in after[g] {
      if k in ch {
        assert k in after[f];
      } else {
        assert fat[k] != 0;
        var g :| g in files && k in files[g];
        assert k in after[g];
      }
    }
  }

  lemma OtherKept(fat: Fat, now: Fat, limit: nat, other: seq<nat>, was: seq<nat>, ch: seq<nat>)
    requires |now| == |fat| && limit <= |fat| && Links(fat, limit, other)
    requires forall k :: k in other ==> k !in was
    requires forall k :: 0 <= k < |fat| && k !in was && k !in ch ==> now[k] == fat[k]
    requires forall k :: k in ch && k !in was ==> 0 <= k < |fat| && fat[k] == 0
    ensures Links(now, limit, other)
  {
    forall i | 0 <= i < |other| ensures LinkAt(now, other, i) {
      TakenOf(fat, limit, other, other[i]);
      assert LinkAt(fat, other, i);
    }
  }

  // ------------------------------------------------------------------ runs

  datatype Op = Create(file: nat) | Append(file: nat) | Cut(file: nat, keep: nat)

  datatype State = State(fat: Fat, files: Files)

  ghost predicate Sound(s: State, limit: nat) {
    limit <= |s.fat| && 2 <= limit <= 0xFFF0 && Partition(s.fat, limit, s.files)
  }

  /** What the operations of the file system do to the table; the search for a free entry
      ends at `u`. */
  ghost function Step(s: State, limit: nat, u: nat, op: Op): State
    requires Sound(s, limit) && u <= limit
  {
    match op
    case Create(f) => if f in s.files then s else s.(files := s.files[f := []])
    case Append(f) =>
      if f !in s.files || Free(s.fat, u) == {} then s
      else
        var c := LeastFree(s.fat, 2);
        FreeIsLeast(s.fat, u);
        LinksInTable(s.fat, limit, s.files[f]);
        State(Appended(s.fat, s.files[f], c), s.files[f := s.files[f] + [c]])
    case Cut(f, n) =>
      if f !in s.files || n > |s.files[f]| then s
      else State(CutTable(s.fat, limit, s.files[f], n), s.files[f := s.files[f][..n]])
  }

  lemma LinksInTable(fat: Fat, limit: nat, ch: seq<nat>)
    requires limit <= |fat| && Links(fat, limit, ch)
    ensures forall i :: 0 <= i < |ch| ==> ch[i] < |fat|
  {
  }

  lemma FreeIsLeast(fat: Fat, u: nat)
    requires u <= |fat| && Free(fat, u) != {}
    ensures 2 <= |fat| && LeastFree(fat, 2) in Free(fat, u)
  {
    var k :| k in Free(fat, u);
  }

  lemma StepSound(s: State, limit: nat, u: nat, op: Op)
    requires Sound(s, limit) && u <= limit
    ensures Sound(Step(s, limit, u, op), limit) && |Step(s, limit, u, op).fat| == |s.fat|
    ensures InRange(s.fat, limit) ==> InRange(Step(s, limit, u, op).fat, limit)
  {
    match op
    case Create(f) =>
      if f !in s.files {
        CreateKeeps(s.fat, limit, s.files, f);
      }
    case Append(f) =>
      if f in s.files && Free(s.fat, u) != {} {
        FreeIsLeast(s.fat, u);
        AppendKeeps(s.fat, limit, s.files, f, LeastFree(s.fat, 2));
      }
    case Cut(f, n) =>
      if f in s.files && n <= |s.files[f]| {
        CutKeeps(s.fat, limit, s.files, f, n);
      }
  }

  lemma CreateKeeps(fat: Fat, limit: nat, files: Files, f: nat)
    requires limit <= |fat| && Partition(fat, limit, files) && f !in files
    ensures Partition(fat, limit, files[f := []])
  {
    var after := files[f := []];
    forall k | 2 <= k < limit && fat[k] != 0 && fat[k] != BAD_MARK ensures exists g :: g in after && k in after[g] {
      var g :| g in files && k in files[g];
      assert k in after[g];
    }
  }

  lemma AppendKeeps(fat: Fat, limit: nat, files: Files, f: nat, c: nat)
    requires limit <= |fat| && limit <= 0xFFF0 && Partition(fat, limit, files) && f in files
    requires c in Free(fat, limit)
    ensures forall i :: 0 <= i < |files[f]| ==> files[f][i] < |fat|
    ensures InRange(fat, limit) ==> InRange(Appended(fat, files[f], c), limit)
    ensures Partition(Appended(fat, files[f], c), limit, files[f := files[f] + [c]])
  {
    var ch := files[f];
    LinksInTable(fat, limit, ch);
    AppendLinks(fat, limit, limit, ch, c);
    hide Appended, Links;
    OthersKept(fat, Appended(fat, ch, c), limit, files, f, ch + [c]);
  }

  lemma CutKeeps(fat: Fat, limit: nat, files: Files, f: nat, n: nat)
    requires limit <= |fat| && limit <= 0xFFF0 && Partition(fat, limit, files) && f in files
    requires n <= |files[f]|
    ensures InRange(fat, limit) ==> InRange(CutTable(fat, limit, files[f], n), limit)
    ensures Partition(CutTable(fat, limit, files[f], n), limit, files[f := files[f][..n]])
  {
    var ch := files[f];
    CutLinks(fat, limit, ch, n);
    hide CutTable, Links;
    OthersKept(fat, CutTable(fat, limit, ch, n), limit, files, f, ch[..n]);
  }

  ghost function Run(s: State, limit: nat, u: nat, ops: seq<Op>): (r: State)
    requires Sound(s, limit) && u <= limit
    decreases |ops|
  {
    if ops == [] then s
    else
      StepSound(s, limit, u, ops[0]);
      Run(Step(s, limit, u, ops[0]), limit, u, ops[1..])
  }

  /** Over any run the entries in use stay exactly the disjoint union of the files'
      chains, and a table without stray links stays one. */
  lemma {:induction false} RunSound(s: State, limit: nat, u: nat, ops: seq<Op>)
    requires Sound(s, limit) && u <= limit
    ensures Sound(Run(s, limit, u, ops), limit) && |Run(s, limit, u, ops).fat| == |s.fat|
    ensures InRange(s.fat, limit) ==> InRange(Run(s, limit, u, ops).fat, limit)
    decreases |ops|
  {
    if ops != [] {
      StepSound(s, limit, u, ops[0]);
      RunSound(Step(s, limit, u, ops[0]), limit, u, ops[1..]);
    }
  }
}
