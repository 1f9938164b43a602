/** The bytes of a file, scattered over the clusters of its chain. */
module FatContent {
  import opened Streamer

  /** Every cluster below `limit` holds `size` bytes. */
  predicate Sized(data: seq<seq<Byte>>, size: nat) {
    forall k :: 2 <= k < |data| ==> |data[k]| == size
  }

  predicate Within(data: seq<seq<Byte>>, ch: seq<nat>) {
    forall i :: 0 <= i < |ch| ==> 2 <= ch[i] < |data|
  }

  /** The clusters of the chain one after the other. */
  function Content(data: seq<seq<Byte>>, ch: seq<nat>): seq<Byte>
    requires Within(data, ch)
    decreases |ch|
  {
    if ch == [] then [] else Content(data, ch[..|ch| - 1]) + data[ch[|ch| - 1]]
  }

  lemma {:induction false} ContentLength(data: seq<seq<Byte>>, ch: seq<nat>, size: nat)
    requires Within(data, ch) && Sized(data, size)
    ensures |Content(data, ch)| == |ch| * size
    decreases |ch|
  {
    if ch != [] {
      ContentLength(data, ch[..|ch| - 1], size);
      assert (|ch| - 1) * size + size == |ch| * size;
    }
  }

  /** The place of the `j`th cluster in the content. */
  lemma Place(j: nat, n: nat, size: nat)
    requires j < n
    ensures j * size + size <= n * size
  {
    assert (j + 1) * size == j * size + size;
    assert (j + 1) * size <= n * size;
  }

  /** The `j`th cluster holds the `j`th piece of the content. */
  lemma {:induction false} ContentAt(data: seq<seq<Byte>>, ch: seq<nat>, size: nat, j: nat)
    requires Within(data, ch) && Sized(data, size) && j < |ch|
    ensures j * size + size <= |Content(data, ch)| && Content(data, ch)[j * size..j * size + size] == data[ch[j]]
    decreases |ch|
  {
    var front := ch[..|ch| - 1];
    ContentLength(data, ch, size);
    ContentLength(data, front, size);
    Place(j, |ch|, size);
    if j < |front| {
      ContentAt(data, front, size, j);
    }
  }

  lemma SpliceFront(a: seq<Byte>, b: seq<Byte>, p: nat, s: seq<Byte>)
    requires p + |s| <= |a|
    ensures Splice(a + b, p, s) == Splice(a, p, s) + b
  {
  }

  lemma SpliceBack(a: seq<Byte>, b: seq<Byte>, p: nat, s: seq<Byte>)
    requires p + |s| <= |b|
    ensures Splice(a + b, |a| + p, s) == a + Splice(b, p, s)
  {
  }

  lemma {:induction false} ContentSame(data: seq<seq<Byte>>, now: seq<seq<Byte>>, ch: seq<nat>)
    requires Within(data, ch) && Within(now, ch) && forall i :: 0 <= i < |ch| ==> now[ch[i]] == data[ch[i]]
    ensures Content(now, ch) == Content(data, ch)
    decreases |ch|
  {
    if ch != [] {
      ContentSame(data, now, ch[..|ch| - 1]);
    }
  }

  /** A piece written into one cluster of the chain is written into the content at the
      cluster's place. */
  lemma {:induction false} ContentWritten(data: seq<seq<Byte>>, ch: seq<nat>, size: nat, j: nat, at: nat, off: nat,
      s: seq<Byte>)
    requires Within(data, ch) && Sized(data, size) && j < |ch| && at == j * size && off + |s| <= size
    requires forall i, k :: 0 <= i < k < |ch| ==> ch[i] != ch[k]
    ensures at + off + |s| <= |Content(data, ch)|
    ensures var now := data[ch[j] := Splice(data[ch[j]], off, s)];
            Content(now, ch) == Splice(Content(data, ch), at + off, s)
    decreases |ch|
  {
    ContentAt(data, ch, size, j);
    if j < |ch| - 1 {
      ContentWritten(data, ch[..|ch| - 1], size, j, at, off, s);
      WrittenInFront(data, ch, j, at + off, off, s);
    } else {
      ContentLength(data, ch[..|ch| - 1], size);
      WrittenInLast(data, ch, off, s);
    }
  }

  lemma WrittenInFront(data: seq<seq<Byte>>, ch: seq<nat>, j: nat, p: nat, off: nat, s: seq<Byte>)
    requires Within(data, ch) && j < |ch| - 1 && ch[j] != ch[|ch| - 1] && off + |s| <= |data[ch[j]]|
    requires var front, now := ch[..|ch| - 1], data[ch[j] := Splice(data[ch[j]], off, s)];
             p + |s| <= |Content(data, front)| && Within(now, front)
               && Content(now, front) == Splice(Content(data, front), p, s)
    ensures var now := data[ch[j] := Splice(data[ch[j]], off, s)];
            Within(now, ch) && Content(now, ch) == Splice(Content(data, ch), p, s)
  {
    hide Splice;
    SpliceFront(Content(data, ch[..|ch| - 1]), data[ch[|ch| - 1]], p, s);
  }

  lemma WrittenInLast(data: seq<seq<Byte>>, ch: seq<nat>, off: nat, s: seq<Byte>)
    requires Within(data, ch) && ch != [] && ch[|ch| - 1] !in ch[..|ch| - 1] && off + |s| <= |data[ch[|ch| - 1]]|
    ensures var front, last := ch[..|ch| - 1], ch[|ch| - 1];
            var now := data[last := Splice(data[last], off, s)];
            Within(now, ch) && Content(now, ch) == Splice(Content(data, ch), |Content(data, front)| + off, s)
  {
    var front, last := ch[..|ch| - 1], ch[|ch| - 1];
    var now := data[last := Splice(data[last], off, s)];
    hide Splice;
    ContentSame(data, now, front);
    SpliceBack(Content(data, front), data[last], off, s);
  }

  /** Reading `n` bytes at an offset within one cluster. */
  lemma ContentPiece(data: seq<seq<Byte>>, ch: seq<nat>, size: nat, j: nat, at: nat, off: nat, n: nat)
    requires Within(data, ch) && Sized(data, size) && j < |ch| && at == j * size && off + n <= size
    ensures at + off + n <= |Content(data, ch)|
    ensures Content(data, ch)[at + off..at + off + n] == data[ch[j]][off..off + n]
  {
    ContentAt(data, ch, size, j);
    SliceOfSlice(Content(data, ch), at, size, off, n);
  }

  /** The content after the chain got one more cluster. */
  lemma ContentMore(data: seq<seq<Byte>>, ch: seq<nat>, c: nat)
    requires Within(data, ch) && 2 <= c < |data|
    ensures Within(data, ch + [c]) && Content(data, ch + [c]) == Content(data, ch) + data[c]
  {
    assert (ch + [c])[..|ch|] == ch;
  }

  /** Cutting the chain cuts the content. */
  lemma {:induction false} ContentCut(data: seq<seq<Byte>>, ch: seq<nat>, size: nat, n: nat)
    requires Within(data, ch) && Sized(data, size) && n <= |ch|
    ensures n * size <= |Content(data, ch)| && Content(data, ch[..n]) == Content(data, ch)[..n * size]
    decreases |ch|
  {
    ContentLength(data, ch, size);
    if n == |ch| {
      assert ch[..n] == ch;
    } else {
      var front := ch[..|ch| - 1];
      Place(n, |ch|, size);
      assert front[..n] == ch[..n];
      ContentCut(data, front, size, n);
      ContentLength(data, front, size);
    }
  }
}
