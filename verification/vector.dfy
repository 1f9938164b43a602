/** The growable vector (lib/vector/vector.c) and its in-place bubble sort. */
module VectorSort {
  import opened Common

  /** The pairs for which a reorder function says that the first must come after the
      second. */
  type Order<!T(==)> = iset<(T, T)>

  ghost function OrderOf<T(!new)>(cmp: (T, T) -> int): Order<T> { iset a, b | cmp(a, b) > 0 :: (a, b) }

  lemma OrderMeans<T(!new)>(cmp: (T, T) -> int, a: T, b: T)
    ensures (a, b) in OrderOf(cmp) <==> cmp(a, b) > 0
  {
  }

  /** What a reorder function must be for sorting to make sense. */
  ghost predicate StrictWeak<T(!new)>(gt: Order<T>) {
    && (forall a, b :: (a, b) in gt ==> (b, a) !in gt)
    && (forall a, b, c :: (a, c) in gt ==> (a, b) in gt || (b, c) in gt)
  }

  ghost predicate SortedBy<T>(s: seq<T>, gt: Order<T>) {
    forall i, j :: 0 <= i < j < |s| ==> (s[i], s[j]) !in gt
  }

  /** `perm[i]` is the old position of the element now at `i`. */
  predicate Rearranges<T(==)>(before: seq<T>, after: seq<T>, perm: seq<nat>) {
    && |before| == |after| == |perm|
    && (forall i :: 0 <= i < |perm| ==> perm[i] < |before| && after[i] == before[perm[i]])
    && (forall i, j :: 0 <= i < j < |perm| ==> perm[i] != perm[j])
  }

  /** Elements changed order only where the comparator demands it. */
  ghost predicate SwapsOnlyGreater<T>(after: seq<T>, perm: seq<nat>, gt: Order<T>)
    requires |after| == |perm|
  {
    forall i, j :: 0 <= i < j < |perm| && perm[i] > perm[j] ==> (after[j], after[i]) in gt
  }

  /** `after` is `before` sorted, ties in their previous order. */
  ghost predicate StableSortOf<T>(before: seq<T>, after: seq<T>, gt: Order<T>) {
    SortedBy(after, gt) && exists perm :: Rearranges(before, after, perm) && TiesKept(after, perm, gt)
  }

  ghost predicate TiesKept<T>(after: seq<T>, perm: seq<nat>, gt: Order<T>)
    requires |after| == |perm|
  {
    forall i, j :: 0 <= i < j < |perm| && (after[i], after[j]) !in gt && (after[j], after[i]) !in gt ==>
      perm[i] < perm[j]
  }

  /** `now` is `was` without its first element equal to `value`, which stands at `k`. */
  ghost predicate FirstDropped<T>(was: seq<T>, now: seq<T>, value: T, k: nat) {
    k < |was| && was[k] == value && value !in was[..k] && now == was[..k] + was[k + 1..]
  }

  /** Position `i` must come before position `j` in every stable sort. */
  ghost predicate Precedes<T>(s: seq<T>, gt: Order<T>, i: nat, j: nat)
    requires i < |s| && j < |s|
  {
    (s[j], s[i]) in gt || ((s[i], s[j]) !in gt && i < j)
  }

  /** There is only one stable sort. */
  lemma StableSortUnique<T(!new)>(s: seq<T>, a: seq<T>, b: seq<T>, gt: Order<T>)
    requires StrictWeak(gt) && StableSortOf(s, a, gt) && StableSortOf(s, b, gt)
    ensures a == b
  {
    var p :| Rearranges(s, a, p) && TiesKept(a, p, gt);
    var q :| Rearranges(s, b, q) && TiesKept(b, q, gt);
    Ordered(s, a, p, gt);
    Ordered(s, b, q, gt);
    SameArrangement(s, p, q, gt, |s|);
  }

  ghost predicate Arrangement<T>(s: seq<T>, p: seq<nat>, gt: Order<T>) {
    && |p| == |s|
    && (forall i :: 0 <= i < |p| ==> p[i] < |s|)
    && (forall i, j :: 0 <= i < j < |p| ==> p[i] != p[j] && Precedes(s, gt, p[i], p[j]))
  }

  lemma Ordered<T(!new)>(s: seq<T>, a: seq<T>, p: seq<nat>, gt: Order<T>)
    requires StrictWeak(gt) && SortedBy(a, gt) && Rearranges(s, a, p) && TiesKept(a, p, gt)
    ensures Arrangement(s, p, gt)
  {
  }

  /** An arrangement hits every position. */
  lemma Surjective(p: seq<nat>, n: nat, x: nat) returns (i: nat)
    requires |p| == n && x < n && (forall i :: 0 <= i < n ==> p[i] < n)
    requires forall i, j :: 0 <= i < j < n ==> p[i] != p[j]
    ensures i < n && p[i] == x
  {
    if i: nat :| i < n && p[i] == x { return i; }
    var image := set i | 0 <= i < n :: p[i];
    ImageSize(p, n);
    RangeSize(n);
    assert image <= UpTo(n) - {x};
    SubsetSize(image, UpTo(n) - {x});
    assert false;
  }

  lemma {:induction false} ImageSize(p: seq<nat>, k: nat)
    requires k <= |p| && forall i, j :: 0 <= i < j < |p| ==> p[i] != p[j]
    ensures |set i | 0 <= i < k :: p[i]| == k
    decreases k
  {
    if k > 0 {
      ImageSize(p, k - 1);
      assert (set i | 0 <= i < k :: p[i]) == (set i | 0 <= i < k - 1 :: p[i]) + {p[k - 1]};
    }
  }

  function UpTo(n: nat): set<nat> { if n == 0 then {} else UpTo(n - 1) + {n - 1} }

  lemma {:induction false} RangeSize(n: nat)
    ensures |UpTo(n)| == n && forall y: nat :: y in UpTo(n) <==> y < n
    decreases n
  {
    if n > 0 {
      RangeSize(n - 1);
    }
  }

  lemma SubsetSize(a: set<nat>, b: set<nat>)
    requires a <= b
    ensures |a| <= |b|
  {
    assert b == a + (b - a);
  }

  lemma {:induction false} SameArrangement<T(!new)>(s: seq<T>, p: seq<nat>, q: seq<nat>, gt: Order<T>, k: nat)
    requires StrictWeak(gt) && Arrangement(s, p, gt) && Arrangement(s, q, gt) && k <= |s|
    ensures forall i :: 0 <= i < k ==> p[i] == q[i]
    decreases k
  {
    if k > 0 {
      SameArrangement(s, p, q, gt, k - 1);
      var i := Surjective(q, |s|, p[k - 1]);
      var j := Surjective(p, |s|, q[k - 1]);
      assert i >= k - 1 && j >= k - 1;
    }
  }

  // ------------------------------------------------------------ the vector

  class Vector<T(==,!new)> {
    /** NULL until the first push, and after a failed reallocation. */
    var memory: array?<T>
    const elementSize: nat
    var elements: nat
    /** Elements that fit into `memory`. */
    var capacity: nat
    const reserved: nat
    /** What a zeroed element reads as. */
    const zero: T

    ghost predicate Valid()
      reads this
    {
      && elements <= capacity
      && (memory == null ==> capacity == 0)
      && (memory != null ==> memory.Length == capacity)
    }

    ghost function Contents(): seq<T>
      reads this, memory
      requires Valid()
    {
      if memory == null then [] else memory[..elements]
    }

    constructor (elementSize: nat, reserved: nat, zero: T)
      ensures Valid() && Contents() == [] && memory == null
      ensures this.elementSize == elementSize && this.reserved == reserved && this.zero == zero
    {
      this.elementSize, this.reserved, this.zero := elementSize, reserved, zero;
      memory, elements, capacity := null, 0, 0;
    }

    /** vector_resize; `granted` says whether krealloc succeeds. The old memory is
        forgotten when it does not. */
    method Resize(needed: nat, granted: bool) returns (res: int)
      requires Valid()
      modifies this
      ensures res == 0 <==> granted || old(capacity) > elements + needed
      ensures res != 0 ==> res == -ENOMEM && memory == null && elements == old(elements) && capacity == old(capacity)
      ensures res == 0 ==> Valid() && Contents() == old(Contents()) && elements == old(elements)
      ensures res == 0 ==> old(memory) == memory || fresh(memory)
      ensures res == 0 ==> elements + needed <= capacity && (elements + needed > 0 ==> memory != null)
      ensures res == 0 ==> capacity == if old(capacity) > elements + needed then old(capacity)
        else reserved + elements + needed
    {
      var required := elements + needed;
      if capacity > required {
        return 0;
      }
      var final := reserved + required;
      if !granted {
        memory := null;
        return -ENOMEM;
      }
      var grown := new T[final](_ => zero);
      var i := 0;
      while i < elements
        invariant 0 <= i <= elements && Valid() && elements == old(elements) && memory == old(memory)
        invariant memory != null ==> forall k :: 0 <= k < i ==> grown[k] == memory[k]
        modifies grown
      {
        grown[i] := memory[i];
        i := i + 1;
      }
      memory := grown;
      capacity := final;
      res := 0;
    }

    /** vector_push: the index of the new element. */
    method Push(elem: T, granted: bool) returns (res: int)
      requires Valid()
      modifies this, memory
      ensures res < 0 <==> !(granted || old(capacity) > old(elements) + 1)
      ensures res < 0 ==> res == -ENOMEM && memory == null
      ensures res >= 0 ==> Valid() && res == |old(Contents())| && Contents() == old(Contents()) + [elem]
      ensures res >= 0 ==> memory != null && (memory == old(memory) || fresh(memory))
    {
      res := Resize(1, granted);
      if res < 0 {
        return;
      }
      ghost var was := Contents();
      res := elements;
      memory[elements] := elem;
      elements := elements + 1;
      assert Contents() == was + [elem];
    }

    /** vector_at; a failed read gives zeroes. */
    method At(index: nat, size: nat) returns (res: int, out: T)
      requires Valid()
      ensures res == 0 <==> size >= elementSize && index < elements
      ensures res == 0 ==> out == Contents()[index]
      ensures res != 0 ==> res == -EINVARG && out == zero
    {
      if size < elementSize {
        return -EINVARG, zero;
      }
      if index >= elements {
        return -EINVARG, zero;
      }
      return 0, memory[index];
    }

    /** vector_overwrite; a negative index is a huge `size_t`. */
    method Overwrite(index: int, elem: T, size: nat) returns (res: int)
      requires Valid()
      modifies memory
      ensures Valid()
      ensures res == 0 <==> 0 <= index < elements && size >= elementSize
      ensures res == 0 ==> Contents() == old(Contents())[index := elem]
      ensures res != 0 ==> res == -EINVARG && Contents() == old(Contents())
    {
      if !(0 <= index < elements) {
        return -EINVARG;
      }
      if size < elementSize {
        return -EINVARG;
      }
      memory[index] := elem;
      assert Contents() == old(Contents())[index := elem];
      return 0;
    }

    method Pop() returns (res: int)
      requires Valid()
      modifies this`elements
      ensures Valid()
      ensures old(Contents()) == [] ==> res == -EIO && Contents() == []
      ensures old(Contents()) != [] ==> res == 0 && Contents() == old(Contents())[..|old(Contents())| - 1]
    {
      if elements == 0 {
        return -EIO;
      }
      elements := elements - 1;
      return 0;
    }

    /** vector_pop_element: drops the first element equal to `value`. */
    method PopElement(value: T, size: nat, granted: bool) returns (res: int)
      requires Valid()
      modifies this, memory
      ensures Valid() && memory == old(memory)
      ensures res == 0 <==> size == elementSize && granted && value in old(Contents())
      ensures res != 0 ==> Contents() == old(Contents())
      ensures res != 0 ==> res == if size != elementSize then -EINVARG else if !granted then -ENOMEM else -EIO
      ensures res == 0 ==> exists k: nat :: FirstDropped(old(Contents()), Contents(), value, k)
    {
      if size != elementSize {
        return -EINVARG;
      }
      if !granted {
        return -ENOMEM;
      }
      ghost var was := Contents();
      var k := FirstEqual(value);
      if k == elements {
        return -EIO;
      }
      res := RemoveAt(k);
      assert FirstDropped(was, Contents(), value, k);
    }

    /** vector.c:348-369: a pop for the last element, a shift for the others. */
    method RemoveAt(k: nat) returns (res: int)
      requires Valid() && k < elements
      modifies this, memory
      ensures Valid() && memory == old(memory) && res == 0
      ensures Contents() == old(Contents())[..k] + old(Contents())[k + 1..]
    {
      ghost var was := Contents();
      if k == elements - 1 {
        res := Pop();
        assert Contents() == was[..k] + was[k + 1..];
        return;
      }
      ShiftLeft(k);
      elements := elements - 1;
      assert Contents() == was[..k] + was[k + 1..];
      res := 0;
    }

    /** vector.c:323-339: the search. */
    method FirstEqual(value: T) returns (k: nat)
      requires Valid()
      ensures k <= |Contents()| && value !in Contents()[..k]
      ensures k < |Contents()| ==> Contents()[k] == value
    {
      k := 0;
      while k < elements
        invariant k <= elements && value !in Contents()[..k]
      {
        var _, out := At(k, elementSize);
        if out == value {
          return;
        }
        k := k + 1;
      }
    }

    /** The memcpy of vector.c:356-364: every element after `k` one place to the left. */
    method ShiftLeft(k: nat)
      requires Valid() && k < elements
      modifies memory
      ensures forall j :: 0 <= j < elements - 1 ==> memory[j] == if j < k then old(memory[j]) else old(memory[j + 1])
    {
      var i := k;
      while i + 1 < elements
        invariant k <= i < elements
        invariant forall j :: 0 <= j < elements ==>
          memory[j] == if k <= j < i then old(memory[j + 1]) else old(memory[j])
      {
        memory[i] := memory[i + 1];
        i := i + 1;
      }
    }

    /** vector.c:213-232: read two neighbours, write them back in the other order if the
        function says so. */
    method CompareSwap(j: nat, cmp: (T, T) -> int) returns (swapped: bool)
      requires Valid() && j + 1 < elements
      modifies memory
      ensures Valid()
      ensures swapped <==> cmp(old(Contents())[j], old(Contents())[j + 1]) > 0
      ensures Contents() == if swapped then Swapped(old(Contents()), j) else old(Contents())
    {
      var res, first := At(j, elementSize);
      var res2, second := At(j + 1, elementSize);
      swapped := cmp(first, second) > 0;
      if swapped {
        res := Overwrite(j, second, elementSize);
        res := Overwrite(j + 1, first, elementSize);
      }
    }

    /** One pass of the outer loop (vector.c:211-233) over the first `count - i` elements. */
    method Pass(limit: nat, cmp: (T, T) -> int, ghost gt: Order<T>,
                ghost s0: seq<T>, ghost s: seq<T>, ghost perm: seq<nat>, ghost k: nat)
      returns (ghost cur: seq<T>, ghost perm': seq<nat>, ghost k': nat)
      requires Valid() && limit + 1 == k && 0 < limit < elements && gt == OrderOf(cmp)
      requires Contents() == s && Bubbled(s0, s, perm, k, 0, gt)
      modifies memory
      ensures Valid() && k' == limit && Contents() == cur && Bubbled(s0, cur, perm', k', 0, gt)
    {
      cur := s;
      hide Bubbled, Rearranges, SwapsOnlyGreater, StrictWeak, TailSorted, LargestOf, Swapped, StableSortOf, OrderOf;
      perm' := perm;
      var j := 0;
      while j < limit
        invariant 0 <= j <= limit && Valid() && Contents() == cur && |cur| == elements
        invariant Bubbled(s0, cur, perm', k, j, gt)
      {
        var swapped := CompareSwap(j, cmp);
        OrderMeans(cmp, cur[j], cur[j + 1]);
        ghost var j';
        cur, perm', j' := BubbleStep(s0, cur, perm', k, j, gt);
        j := j + 1;
        assert j == j';
      }
      k' := BubbleNext(s0, cur, perm', k, j, gt);
    }

    /** vector_reorder: whatever the function, a rearrangement; for a strict weak order,
        the stable sort. `granted` says whether the two buffers could be allocated. */
    method Reorder(cmp: (T, T) -> int, granted: bool)
      requires Valid()
      modifies memory
      ensures Valid() && |Contents()| == |old(Contents())|
      ensures exists perm :: Rearranges(old(Contents()), Contents(), perm)
      ensures StrictWeak(OrderOf(cmp)) && granted ==> StableSortOf(old(Contents()), Contents(), OrderOf(cmp))
      ensures !granted ==> Contents() == old(Contents())
    {
      ghost var s0, gt := Contents(), OrderOf(cmp);
      ghost var cur, perm := s0, Identity(|s0|);
      AlreadySorted(s0, gt);
      var count := elements;
      if count < 2 || !granted {
        return;
      }
      BubbleStart(s0, gt);
      assert |s0| == count;
      hide Bubbled, Rearranges, SwapsOnlyGreater, StrictWeak, TailSorted, LargestOf, Identity, Swapped, StableSortOf,
           OrderOf;
      ghost var k := count;
      var i := 0;
      while i < count - 1
        invariant 0 <= i <= count - 1 && Valid() && elements == count
        invariant k == count - i && Contents() == cur && Bubbled(s0, cur, perm, k, 0, gt)
      {
        cur, perm, k := Pass(count - i - 1, cmp, gt, s0, cur, perm, k);
        i := i + 1;
      }
      BubbleEnd(s0, cur, perm, k, gt);
    }
  }

  /** The state of the sort: everything from `k` on is in place, the largest of the first
      `j + 1` elements is at `j`. */
  ghost predicate Bubbled<T(!new)>(s0: seq<T>, s: seq<T>, perm: seq<nat>, k: nat, j: nat, gt: Order<T>) {
    && Rearranges(s0, s, perm) && SwapsOnlyGreater(s, perm, gt) && j < k <= |s|
    && (StrictWeak(gt) ==> TailSorted(s, k, gt) && LargestOf(s, j, gt))
  }

  lemma BubbleStart<T(!new)>(s: seq<T>, gt: Order<T>)
    requires s != []
    ensures Bubbled(s, s, Identity(|s|), |s|, 0, gt)
  {
    IdentityFacts(s, gt);
  }

  lemma BubbleStep<T(!new)>(s0: seq<T>, s: seq<T>, perm: seq<nat>, k: nat, j: nat, gt: Order<T>)
    returns (s': seq<T>, perm': seq<nat>, j': nat)
    requires Bubbled(s0, s, perm, k, j, gt) && j + 1 < k
    ensures j' == j + 1 < |s| && s' == (if (s[j], s[j']) in gt then Swapped(s, j) else s)
    ensures Bubbled(s0, s', perm', k, j', gt)
  {
    hide Rearranges, SwapsOnlyGreater, TailSorted, LargestOf, StrictWeak, Swapped;
    SameLength(s0, s, perm);
    s', perm', j' := s, perm, j + 1;
    if (s[j], s[j + 1]) in gt {
      SwapStep(s0, s, perm, j, gt);
      if StrictWeak(gt) { SwapSorts(s, j, k, gt); }
      s', perm' := Swapped(s, j), Swapped(perm, j);
    } else if StrictWeak(gt) {
      LargestStep(s, j, gt);
    }
  }

  lemma SameLength<T>(s0: seq<T>, s: seq<T>, perm: seq<nat>)
    requires Rearranges(s0, s, perm)
    ensures |perm| == |s| == |s0|
  {
  }

  lemma BubbleNext<T(!new)>(s0: seq<T>, s: seq<T>, perm: seq<nat>, k: nat, j: nat, gt: Order<T>) returns (k': nat)
    requires k > 1 && j + 1 == k && Bubbled(s0, s, perm, k, j, gt)
    ensures k' == k - 1 && Bubbled(s0, s, perm, k', 0, gt)
  {
    k' := k - 1;
    if StrictWeak(gt) {
      TailGrows(s, k, gt);
      LargestStart(s, gt);
    }
  }

  lemma BubbleEnd<T(!new)>(s0: seq<T>, s: seq<T>, perm: seq<nat>, k: nat, gt: Order<T>)
    requires k == 1 && Bubbled(s0, s, perm, k, 0, gt)
    ensures Rearranges(s0, s, perm) && |s| == |s0|
    ensures StrictWeak(gt) ==> StableSortOf(s0, s, gt)
  {
    if StrictWeak(gt) {
      SortedAtEnd(s0, s, perm, gt);
    }
  }

  function Swapped<T>(s: seq<T>, j: nat): (r: seq<T>)
    requires j + 1 < |s|
    ensures |r| == |s|
  {
    s[j := s[j + 1]][j + 1 := s[j]]
  }

  function Identity(n: nat): seq<nat> { seq(n, i => i) }

  lemma IdentityFacts<T>(s: seq<T>, gt: Order<T>)
    ensures Rearranges(s, s, Identity(|s|)) && SwapsOnlyGreater(s, Identity(|s|), gt)
    ensures TiesKept(s, Identity(|s|), gt)
    ensures TailSorted(s, |s|, gt)
  {
  }

  /** Everything from `k` on is in place. */
  ghost predicate TailSorted<T>(s: seq<T>, k: nat, gt: Order<T>) {
    forall a, b :: 0 <= a < b < |s| && k <= b ==> (s[a], s[b]) !in gt
  }

  ghost predicate LargestOf<T>(s: seq<T>, j: nat, gt: Order<T>)
    requires j < |s|
  {
    forall a :: 0 <= a <= j ==> (s[a], s[j]) !in gt
  }

  lemma SwapStep<T>(s0: seq<T>, s: seq<T>, perm: seq<nat>, j: nat, gt: Order<T>)
    requires Rearranges(s0, s, perm) && SwapsOnlyGreater(s, perm, gt)
    requires j + 1 < |s| && (s[j], s[j + 1]) in gt
    ensures |perm| == |s|
    ensures Rearranges(s0, Swapped(s, j), Swapped(perm, j)) && SwapsOnlyGreater(Swapped(s, j), Swapped(perm, j), gt)
  {
  }

  lemma SwapSorts<T(!new)>(s: seq<T>, j: nat, k: nat, gt: Order<T>)
    requires StrictWeak(gt) && j + 1 < k <= |s| && (s[j], s[j + 1]) in gt
    requires TailSorted(s, k, gt) && LargestOf(s, j, gt)
    ensures TailSorted(Swapped(s, j), k, gt) && LargestOf(Swapped(s, j), j + 1, gt)
  {
  }

  lemma LargestStep<T(!new)>(s: seq<T>, j: nat, gt: Order<T>)
    requires StrictWeak(gt) && j + 1 < |s| && (s[j], s[j + 1]) !in gt && LargestOf(s, j, gt)
    ensures LargestOf(s, j + 1, gt)
  {
  }

  lemma AlreadySorted<T>(s: seq<T>, gt: Order<T>)
    ensures Rearranges(s, s, Identity(|s|))
    ensures |s| < 2 ==> StableSortOf(s, s, gt)
  {
    assert |s| < 2 ==> Rearranges(s, s, Identity(|s|)) && TiesKept(s, Identity(|s|), gt);
  }

  lemma LargestStart<T(!new)>(s: seq<T>, gt: Order<T>)
    requires StrictWeak(gt) && s != []
    ensures LargestOf(s, 0, gt)
  {
  }

  lemma TailGrows<T(!new)>(s: seq<T>, k: nat, gt: Order<T>)
    requires StrictWeak(gt) && 0 < k <= |s| && TailSorted(s, k, gt) && LargestOf(s, k - 1, gt)
    ensures TailSorted(s, k - 1, gt)
  {
  }

  lemma SortedAtEnd<T(!new)>(s0: seq<T>, s: seq<T>, perm: seq<nat>, gt: Order<T>)
    requires StrictWeak(gt) && |perm| == |s| && TailSorted(s, 1, gt) && SwapsOnlyGreater(s, perm, gt)
    requires Rearranges(s0, s, perm)
    ensures SortedBy(s, gt) && TiesKept(s, perm, gt) && StableSortOf(s0, s, gt)
  {
  }
}
