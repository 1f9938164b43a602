/** Hit testing on the element objects (graphics_get_child_at_position in
    graphics/graphics.c). */
module HitTest {
  import opened Common
  import opened Compositing
  import opened Graphics

  /** The parent pointers lead through the lineage and end with it. */
  ghost predicate Rooted(g: GraphicsInfo)
    reads g, g.lineage
    decreases |g.lineage|
  {
    if g.lineage == [] then g.parent == null
    else
      && g.parent == g.lineage[0] && g.lineage[0].lineage == g.lineage[1..]
      && Rooted(g.lineage[0])
  }

  /** The element is the ignored one or lies below it. */
  ghost predicate InBranch(g: GraphicsInfo, ignored: GraphicsInfo?)
    reads g
  {
    ignored != null && (g == ignored || ignored in g.lineage)
  }

  method IsInIgnoredBranch(elem: GraphicsInfo, ignored: GraphicsInfo?) returns (inside: bool)
    requires Rooted(elem)
    ensures inside <==> InBranch(elem, ignored)
  {
    if ignored == null {
      return false;
    }
    var cur: GraphicsInfo? := elem;
    while cur != null
      invariant cur != null ==> Rooted(cur)
      invariant InBranch(elem, ignored) <==> cur != null && InBranch(cur, ignored)
      decreases cur != null, if cur != null then |cur.lineage| else 0
    {
      if cur == ignored {
        return true;
      }
      cur := cur.parent;
    }
    return false;
  }

  function HandleOf(g: GraphicsInfo?): nat { if g == null then 0 else g.handle }

  /** No other element has the address of the ignored one. */
  ghost predicate Unambiguous(g: GraphicsInfo, ignored: GraphicsInfo?)
    reads g
  {
    ignored != null ==> forall e :: e in g.repr && e.handle == ignored.handle ==> e == ignored
  }

  lemma {:induction false} HitAllSuffix(cs: seq<Node>, i: nat, px: nat, py: nat, ignored: nat)
    requires i <= |cs| && HitAll(cs[i..], px, py, ignored) != 0
    ensures HitAll(cs, px, py, ignored) == HitAll(cs[i..], px, py, ignored)
    decreases i
  {
    if i == 0 {
      assert cs[0..] == cs;
    } else {
      assert cs[1..][i - 1..] == cs[i..];
      HitAllSuffix(cs[1..], i - 1, px, py, ignored);
    }
  }

  lemma {:induction false} AddressedAt(cs: seq<Node>, i: nat)
    requires AddressedAll(cs) && i < |cs|
    ensures Addressed(cs[i])
    decreases i
  {
    if i > 0 {
      AddressedAt(cs[1..], i - 1);
    }
  }

  /** What a descent step needs to know of a child. */
  lemma ChildOf(g: GraphicsInfo, i: nat, ignored: GraphicsInfo?)
    requires g.Valid() && Rooted(g) && Addressed(g.view) && Unambiguous(g, ignored) && i < |g.children|
    ensures |g.view.children| == |g.children|
    ensures var c := g.children[i];
            && c.Valid() && Rooted(c) && c.view == g.view.children[i] && Addressed(c.view) && Unambiguous(c, ignored)
            && c.repr < g.repr && c.view.handle == c.handle
            && c.view.x == c.startX && c.view.y == c.startY && c.view.w == c.width && c.view.h == c.height
    ensures !InBranch(g, ignored) ==>
      (InBranch(g.children[i], ignored) <==> g.children[i].handle == HandleOf(ignored))
  {
    var c := g.children[i];
    AddressedAt(g.view.children, i);
    assert c.Valid() && c.lineage == [g] + g.lineage;
    assert g !in c.repr && g in g.repr;
    assert c.lineage[0] == g && c.lineage[1..] == g.lineage;
    assert Addressed(c.view) && c.handle != 0;
  }

  /** The same tree with all siblings in the opposite order. */
  function Mirrored(n: Node): (r: Node)
    ensures r == n.(children := r.children)
    decreases n, 1
  {
    n.(children := MirroredAll(n.children))
  }

  function MirroredAll(cs: seq<Node>): (r: seq<Node>)
    ensures |r| == |cs|
    decreases cs, 0
  {
    if cs == [] then [] else MirroredAll(cs[1..]) + [Mirrored(cs[0])]
  }

  lemma {:induction false} MirroredConcat(a: seq<Node>, b: seq<Node>)
    ensures MirroredAll(a + b) == MirroredAll(b) + MirroredAll(a)
    decreases |a|
  {
    if a == [] {
      assert a + b == b;
    } else {
      assert (a + b)[1..] == a[1..] + b;
      MirroredConcat(a[1..], b);
    }
  }

  lemma MirroredOne(c: Node)
    ensures MirroredAll([c]) == [Mirrored(c)]
  {
  }

  /** The last siblings of the mirrored tree are the first of the tree. */
  lemma MirroredSuffix(cs: seq<Node>, i: nat)
    requires i < |cs|
    ensures MirroredAll(cs[..i + 1]) == [Mirrored(cs[i])] + MirroredAll(cs[..i])
    ensures |cs| - i - 1 <= |MirroredAll(cs)| && MirroredAll(cs)[|cs| - i - 1..] == MirroredAll(cs[..i + 1])
  {
    assert cs[..i + 1] == cs[..i] + [cs[i]];
    MirroredConcat(cs[..i], [cs[i]]);
    MirroredOne(cs[i]);
    assert cs == cs[..i + 1] + cs[i + 1..];
    MirroredConcat(cs[..i + 1], cs[i + 1..]);
  }

  lemma {:induction false} ContainedConcat(a: seq<Node>, b: seq<Node>, n: Node)
    requires ContainedAll(a, n) && ContainedAll(b, n)
    ensures ContainedAll(a + b, n)
    decreases |a|
  {
    if a == [] {
      assert a + b == b;
    } else {
      assert (a + b)[1..] == a[1..] + b;
      ContainedConcat(a[1..], b, n);
    }
  }

  lemma {:induction false} AddressedConcat(a: seq<Node>, b: seq<Node>)
    requires AddressedAll(a) && AddressedAll(b)
    ensures AddressedAll(a + b)
    decreases |a|
  {
    if a == [] {
      assert a + b == b;
    } else {
      assert (a + b)[1..] == a[1..] + b;
      AddressedConcat(a[1..], b);
    }
  }

  lemma {:induction false} MirroredContained(n: Node)
    requires Contained(n)
    ensures Contained(Mirrored(n))
    decreases n, 1
  {
    MirroredAllContained(n.children, n);
    SameBox(Mirrored(n).children, n, Mirrored(n));
  }

  lemma {:induction false} MirroredAllContained(cs: seq<Node>, n: Node)
    requires ContainedAll(cs, n)
    ensures ContainedAll(MirroredAll(cs), n)
    decreases cs, 0
  {
    if cs != [] {
      MirroredContained(cs[0]);
      MirroredAllContained(cs[1..], n);
      var one := [Mirrored(cs[0])];
      assert one[1..] == [];
      ContainedConcat(MirroredAll(cs[1..]), one, n);
    }
  }

  lemma {:induction false} MirroredAddressed(n: Node)
    requires Addressed(n)
    ensures Addressed(Mirrored(n))
    decreases n, 1
  {
    MirroredAllAddressed(n.children);
  }

  lemma {:induction false} MirroredAllAddressed(cs: seq<Node>)
    requires AddressedAll(cs)
    ensures AddressedAll(MirroredAll(cs))
    decreases cs, 0
  {
    if cs != [] {
      MirroredAddressed(cs[0]);
      MirroredAllAddressed(cs[1..]);
      var one := [Mirrored(cs[0])];
      assert one[1..] == [];
      AddressedConcat(MirroredAll(cs[1..]), one);
    }
  }

  /** The tree in the order in which the search takes the later sibling first. */
  function Searched(n: Node, topFirst: bool): Node { if topFirst then n else Mirrored(n) }

  /** graphics_get_child_at_position: the element that the descent of Hit names, in the
      tree itself with top_first, else in the tree with the siblings in the opposite order;
      none inside an ignored branch. */
  method ChildAtPosition(g: GraphicsInfo, px: nat, py: nat, ignored: GraphicsInfo?, topFirst: bool)
    returns (found: GraphicsInfo?)
    requires g.Valid() && Rooted(g) && Addressed(g.view) && Unambiguous(g, ignored)
    ensures InBranch(g, ignored) ==> found == null
    ensures !InBranch(g, ignored) ==> HandleOf(found) == Hit(Searched(g.view, topFirst), px, py, HandleOf(ignored))
    ensures found != null ==> found in g.repr && found.handle != 0
    decreases g.repr, 1
  {
    hide GraphicsInfo.Valid, Addressed, AddressedAll, Rooted, Unambiguous;
    var skip := IsInIgnoredBranch(g, ignored);
    if skip {
      return null;
    }
    Mirror(g);
    if topFirst {
      found := LastChildAt(g, px, py, ignored);
    } else {
      found := FirstChildAt(g, px, py, ignored);
    }
    if found != null {
      return;
    }
    if px >= g.startX && px < g.startX + g.width && py >= g.startY && py < g.startY + g.height {
      return g;
    }
    return null;
  }

  /** graphics.c:446-474. */
  method LastChildAt(g: GraphicsInfo, px: nat, py: nat, ignored: GraphicsInfo?) returns (found: GraphicsInfo?)
    requires g.Valid() && Rooted(g) && Addressed(g.view) && Unambiguous(g, ignored) && !InBranch(g, ignored)
    ensures HandleOf(found) == HitAll(g.view.children, px, py, HandleOf(ignored))
    ensures found != null ==> found in g.repr && found.handle != 0
    decreases g.repr, 0
  {
    hide GraphicsInfo.Valid, Addressed, AddressedAll, Rooted, Unambiguous;
    ghost var cs, ign := g.view.children, HandleOf(ignored);
    Mirror(g);
    var i := |g.children|;
    while i > 0
      invariant 0 <= i <= |g.children| && HitAll(cs[i..], px, py, ign) == 0
    {
      i := i - 1;
      var child := g.children[i];
      ChildOf(g, i, ignored);
      assert cs[i..][1..] == cs[i + 1..];
      var skipped := IsInIgnoredBranch(child, ignored);
      if skipped {
        continue;
      }
      if px >= child.startX && px < child.startX + child.width && py >= child.startY
        && py < child.startY + child.height {
        HitInside(child.view, px, py, ign);
        HitAllSuffix(cs, i, px, py, ign);
        found := ChildAtPosition(child, px, py, ignored, true);
        if found != null {
          return found;
        }
        return child;
      }
    }
    assert cs[0..] == cs;
    return null;
  }

  /** graphics.c:475-498. */
  method FirstChildAt(g: GraphicsInfo, px: nat, py: nat, ignored: GraphicsInfo?) returns (found: GraphicsInfo?)
    requires g.Valid() && Rooted(g) && Addressed(g.view) && Unambiguous(g, ignored) && !InBranch(g, ignored)
    ensures HandleOf(found) == HitAll(Mirrored(g.view).children, px, py, HandleOf(ignored))
    ensures found != null ==> found in g.repr && found.handle != 0
    decreases g.repr, 0
  {
    hide GraphicsInfo.Valid, Addressed, AddressedAll, Rooted, Unambiguous, HitAll, Hit, MirroredAll;
    ghost var cs, ign := g.view.children, HandleOf(ignored);
    Mirror(g);
    HitNothing(px, py, ign);
    var i := 0;
    while i < |g.children|
      invariant 0 <= i <= |g.children| && HitAll(MirroredAll(cs[..i]), px, py, ign) == 0
    {
      var child := g.children[i];
      ChildOf(g, i, ignored);
      ForwardTurn(cs, i, px, py, ign);
      var skipped := IsInIgnoredBranch(child, ignored);
      if skipped {
        i := i + 1;
        continue;
      }
      if px >= child.startX && px < child.startX + child.width && py >= child.startY
        && py < child.startY + child.height {
        found := ChildAtPosition(child, px, py, ignored, false);
        if found != null {
          return found;
        }
        return child;
      }
      i := i + 1;
    }
    assert cs[..i] == cs;
    return null;
  }

  lemma HitNothing(px: nat, py: nat, ignored: nat)
    ensures HitAll(MirroredAll([]), px, py, ignored) == 0
  {
  }

  /** One turn of the forward search: the child decides if it stands and is not ignored. */
  lemma ForwardTurn(cs: seq<Node>, i: nat, px: nat, py: nat, ignored: nat)
    requires i < |cs| && HitAll(MirroredAll(cs[..i]), px, py, ignored) == 0 && Addressed(cs[i])
    ensures cs[i].handle != ignored && Inside(cs[i], px, py) ==>
      && Hit(Mirrored(cs[i]), px, py, ignored) != 0
      && HitAll(MirroredAll(cs), px, py, ignored) == Hit(Mirrored(cs[i]), px, py, ignored)
    ensures cs[i].handle == ignored || !Inside(cs[i], px, py) ==> HitAll(MirroredAll(cs[..i + 1]), px, py, ignored) == 0
  {
    MirroredSuffix(cs, i);
    MirroredAddressed(cs[i]);
    hide MirroredAll, Mirrored, HitAll, Hit;
    FirstOfMany(Mirrored(cs[i]), MirroredAll(cs[..i]), px, py, ignored);
    if cs[i].handle != ignored && Inside(cs[i], px, py) {
      HitInside(Mirrored(cs[i]), px, py, ignored);
      HitAllSuffix(MirroredAll(cs), |cs| - i - 1, px, py, ignored);
    }
  }

  lemma FirstOfMany(c: Node, cs: seq<Node>, px: nat, py: nat, ignored: nat)
    requires HitAll(cs, px, py, ignored) == 0
    ensures HitAll([c] + cs, px, py, ignored) ==
            if c.handle != ignored && Inside(c, px, py) then Hit(c, px, py, ignored) else 0
  {
    assert ([c] + cs)[1..] == cs;
  }

  lemma Mirror(g: GraphicsInfo)
    requires g.Valid() && Addressed(g.view)
    ensures g in g.repr && |g.view.children| == |g.children| && g.view.handle == g.handle && g.handle != 0
    ensures g.view.x == g.startX && g.view.y == g.startY && g.view.w == g.width && g.view.h == g.height
  {
  }

  lemma HitInside(n: Node, px: nat, py: nat, ignored: nat)
    requires Addressed(n) && Inside(n, px, py)
    ensures Hit(n, px, py, ignored) != 0
  {
  }

  /** graphics_get_at_screen_position: the last element painted over the point, the ignored
      subtree left out; without top_first the last that would be, were all siblings painted
      in the opposite order. */
  method AtScreenPosition(screen: GraphicsInfo, px: nat, py: nat, ignored: GraphicsInfo?, topFirst: bool)
    returns (found: GraphicsInfo?)
    requires screen.Valid() && screen.parent == null && screen.lineage == []
    requires Addressed(screen.view) && Contained(screen.view) && Unambiguous(screen, ignored)
    ensures HandleOf(found) == LastContaining(PaintOrder(Searched(screen.view, topFirst), HandleOf(ignored)), px, py)
    ensures found != null ==> found in screen.repr
  {
    Mirror(screen);
    found := ChildAtPosition(screen, px, py, ignored, topFirst);
    if screen != ignored {
      assert ignored != null ==> ignored.handle != screen.handle;
      MirroredContained(screen.view);
      MirroredAddressed(screen.view);
      HitIsLastPainted(Searched(screen.view, topFirst), px, py, HandleOf(ignored));
    }
  }
}
