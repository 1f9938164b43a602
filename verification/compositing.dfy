/** What a tree of rectangles shows (graphics/graphics.c), as functions of one screen
    point: painting in order, the topmost opaque pixel, and the element on top. */
module Compositing {
  import opened Common

  datatype Pixel = Pixel(blue: bv8, green: bv8, red: bv8, reserved: bv8)

  const BLACK: Pixel := Pixel(0, 0, 0, 0)

  /** A graphics element: absolute and relative position, size, transparency key (BLACK
      for none), its own pixels row by row, and its children in paint order. */
  datatype Node = Node(handle: nat, x: nat, y: nat, relX: nat, relY: nat, w: nat, h: nat,
                       key: Pixel, pixels: seq<Pixel>, children: seq<Node>)

  predicate Inside(n: Node, px: nat, py: nat) {
    n.x <= px < n.x + n.w && n.y <= py < n.y + n.h
  }

  function Index(w: nat, lx: nat, ly: nat): nat { ly * w + lx }

  lemma IndexBound(w: nat, h: nat, lx: nat, ly: nat)
    requires lx < w && ly < h
    ensures Index(w, lx, ly) < w * h
  {
    assert ly * w + w == (ly + 1) * w;
    assert (ly + 1) * w <= h * w;
  }

  /** The buffers of the whole tree have their sizes. */
  predicate Sized(n: Node) {
    |n.pixels| == n.w * n.h && SizedAll(n.children)
  }

  predicate SizedAll(cs: seq<Node>) {
    cs == [] || (Sized(cs[0]) && SizedAll(cs[1..]))
  }

  /** The element's own pixel at a screen point, None where it is transparent. */
  function Own(n: Node, px: nat, py: nat): Option<Pixel>
    requires Sized(n)
  {
    if !Inside(n, px, py) then None
    else
      IndexBound(n.w, n.h, px - n.x, py - n.y);
      var p := n.pixels[Index(n.w, px - n.x, py - n.y)];
      if n.key != BLACK && p == n.key then None else Some(p)
  }

  function Over(p: Option<Pixel>, under: Pixel): Pixel {
    if p.Some? then p.value else under
  }

  /** The colour of a point after the element and then its children are painted. */
  function Color(n: Node, px: nat, py: nat, under: Pixel): Pixel
    requires Sized(n)
    decreases n, 1
  {
    ColorAll(n.children, px, py, Over(Own(n, px, py), under))
  }

  function ColorAll(cs: seq<Node>, px: nat, py: nat, under: Pixel): Pixel
    requires SizedAll(cs)
    decreases cs, 0
  {
    if cs == [] then under else ColorAll(cs[1..], px, py, Color(cs[0], px, py, under))
  }

  /** The topmost opaque pixel of the tree at a point, searched from the top down. */
  function Top(n: Node, px: nat, py: nat): Option<Pixel>
    requires Sized(n)
    decreases n, 1
  {
    var t := TopAll(n.children, px, py);
    if t.Some? then t else Own(n, px, py)
  }

  function TopAll(cs: seq<Node>, px: nat, py: nat): Option<Pixel>
    requires SizedAll(cs)
    decreases cs, 0
  {
    if cs == [] then None
    else
      var t := TopAll(cs[1..], px, py);
      if t.Some? then t else Top(cs[0], px, py)
  }

  /** Painting bottom-up shows exactly the topmost opaque pixel. */
  lemma {:induction false} ColorIsTop(n: Node, px: nat, py: nat, under: Pixel)
    requires Sized(n)
    ensures Color(n, px, py, under) == Over(Top(n, px, py), under)
    decreases n, 1
  {
    ColorAllIsTop(n.children, px, py, Over(Own(n, px, py), under));
  }

  lemma {:induction false} ColorAllIsTop(cs: seq<Node>, px: nat, py: nat, under: Pixel)
    requires SizedAll(cs)
    ensures ColorAll(cs, px, py, under) == Over(TopAll(cs, px, py), under)
    decreases cs, 0
  {
    if cs != [] {
      ColorIsTop(cs[0], px, py, under);
      ColorAllIsTop(cs[1..], px, py, Color(cs[0], px, py, under));
    }
  }

  lemma {:induction false} SizedAt(cs: seq<Node>, i: nat)
    requires SizedAll(cs) && i < |cs|
    ensures Sized(cs[i]) && SizedAll(cs[..i]) && SizedAll(cs[..i + 1]) && SizedAll(cs[i..])
    decreases |cs|
  {
    assert cs[..i + 1] == [cs[0]] + cs[1..][..i];
    if i > 0 {
      SizedAt(cs[1..], i - 1);
      assert cs[..i] == [cs[0]] + cs[1..][..i - 1];
      assert cs[1..][i - 1..] == cs[i..];
    }
  }

  /** One more child painted. */
  lemma {:induction false} ColorMore(cs: seq<Node>, i: nat, px: nat, py: nat, under: Pixel)
    requires SizedAll(cs) && i < |cs|
    ensures Sized(cs[i]) && SizedAll(cs[..i]) && SizedAll(cs[..i + 1])
    ensures ColorAll(cs[..i + 1], px, py, under) == Color(cs[i], px, py, ColorAll(cs[..i], px, py, under))
    decreases i
  {
    SizedAt(cs, i);
    assert cs[..i + 1][1..] == cs[1..][..i];
    if i > 0 {
      assert cs[..i][1..] == cs[1..][..i - 1];
      assert cs[..i + 1][0] == cs[0] && cs[..i][0] == cs[0];
      ColorMore(cs[1..], i - 1, px, py, Color(cs[0], px, py, under));
    }
  }

  // ---------------------------------------------------------- containment

  predicate Fits(c: Node, n: Node) {
    n.x <= c.x && c.x + c.w <= n.x + n.w && n.y <= c.y && c.y + c.h <= n.y + n.h
  }

  /** Every element lies inside its parent. */
  predicate Contained(n: Node)
    decreases n, 1
  {
    ContainedAll(n.children, n)
  }

  predicate ContainedAll(cs: seq<Node>, n: Node)
    decreases cs, 0
  {
    cs == [] || (Fits(cs[0], n) && Contained(cs[0]) && ContainedAll(cs[1..], n))
  }

  lemma {:induction false} ContainedAt(cs: seq<Node>, n: Node, i: nat)
    requires ContainedAll(cs, n) && i < |cs|
    ensures Fits(cs[i], n) && Contained(cs[i]) && ContainedAll(cs[..i], n)
    decreases i
  {
    if i > 0 {
      ContainedAt(cs[1..], n, i - 1);
      assert cs[..i] == [cs[0]] + cs[1..][..i - 1];
      assert cs[..i][1..] == cs[1..][..i - 1];
    }
  }

  /** A contained tree shows nothing outside its rectangle. */
  lemma {:induction false} NothingOutside(n: Node, px: nat, py: nat)
    requires Sized(n) && Contained(n) && !Inside(n, px, py)
    ensures Top(n, px, py) == None
    decreases n, 1
  {
    NothingOutsideAll(n.children, n, px, py);
  }

  lemma {:induction false} NothingOutsideAll(cs: seq<Node>, n: Node, px: nat, py: nat)
    requires SizedAll(cs) && ContainedAll(cs, n) && !Inside(n, px, py)
    ensures TopAll(cs, px, py) == None
    decreases cs, 0
  {
    if cs != [] {
      NothingOutside(cs[0], px, py);
      NothingOutsideAll(cs[1..], n, px, py);
    }
  }

  // ---------------------------------------------------------------- moving

  /** The tree put at (x, y), every descendant following its parent. */
  function Placed(n: Node, x: nat, y: nat): Node
    decreases n, 1
  {
    n.(x := x, y := y, children := PlacedAll(n.children, x, y))
  }

  function PlacedAll(cs: seq<Node>, x: nat, y: nat): (r: seq<Node>)
    ensures |r| == |cs|
    decreases cs, 0
  {
    if cs == [] then []
    else [Placed(cs[0], x + cs[0].relX, y + cs[0].relY)] + PlacedAll(cs[1..], x, y)
  }

  lemma {:induction false} PlacedAt(cs: seq<Node>, x: nat, y: nat, i: nat)
    requires i < |cs|
    ensures PlacedAll(cs, x, y)[i] == Placed(cs[i], x + cs[i].relX, y + cs[i].relY)
    decreases i
  {
    if i > 0 {
      PlacedAt(cs[1..], x, y, i - 1);
    }
  }

  /** Absolute positions agree with relative ones. */
  predicate Aligned(n: Node)
    decreases n, 1
  {
    AlignedAll(n.children, n.x, n.y)
  }

  predicate AlignedAll(cs: seq<Node>, x: nat, y: nat)
    decreases cs, 0
  {
    cs == [] || (cs[0].x == x + cs[0].relX && cs[0].y == y + cs[0].relY && Aligned(cs[0]) && AlignedAll(cs[1..], x, y))
  }

  /** Moving keeps the tree aligned, contained and of the same sizes. */
  lemma {:induction false} PlacedOk(n: Node, x: nat, y: nat)
    requires Sized(n) && Contained(n) && Aligned(n)
    ensures var m := Placed(n, x, y); Sized(m) && Contained(m) && Aligned(m)
    decreases n, 1
  {
    PlacedAllOk(n.children, n, x, y);
  }

  lemma {:induction false} PlacedAllOk(cs: seq<Node>, n: Node, x: nat, y: nat)
    requires SizedAll(cs) && ContainedAll(cs, n) && AlignedAll(cs, n.x, n.y)
    ensures SizedAll(PlacedAll(cs, x, y)) && ContainedAll(PlacedAll(cs, x, y), Placed(n, x, y))
    ensures AlignedAll(PlacedAll(cs, x, y), x, y)
    decreases cs, 0
  {
    if cs != [] {
      var c := cs[0];
      PlacedOk(c, x + c.relX, y + c.relY);
      PlacedAllOk(cs[1..], n, x, y);
      var moved, rest := PlacedAll(cs, x, y), PlacedAll(cs[1..], x, y);
      assert moved[0] == Placed(c, x + c.relX, y + c.relY) && moved[1..] == rest;
      assert Fits(moved[0], Placed(n, x, y)) by {
        hide Sized, Contained, Aligned, PlacedAll;
      }
    }
  }

  // ------------------------------------- moving the window painted last

  /** The screen with its last child replaced. */
  function WithLast(screen: Node, child: Node): Node
    requires screen.children != []
  {
    screen.(children := screen.children[..|screen.children| - 1] + [child])
  }

  predicate Covers(screen: Node, px: nat, py: nat)
    requires Sized(screen)
  {
    screen.key == BLACK && Inside(screen, px, py)
  }

  lemma {:induction false} TopLast(cs: seq<Node>, c: Node, px: nat, py: nat)
    requires SizedAll(cs) && Sized(c)
    ensures SizedAll(cs + [c])
    ensures TopAll(cs + [c], px, py) == if Top(c, px, py).Some? then Top(c, px, py) else TopAll(cs, px, py)
    decreases |cs|
  {
    if cs == [] {
      assert cs + [c] == [c] && [c][1..] == [];
    } else {
      assert (cs + [c])[1..] == cs[1..] + [c];
      TopLast(cs[1..], c, px, py);
    }
  }

  /** One point of a move: the old rectangle is painted from the root of the new tree, the
      moved window is painted once more. Whatever was shown under an opaque root before,
      the point then shows what a full redraw of the new tree shows. */
  lemma MovePoint(before: Node, moved: Node, px: nat, py: nat, shown: Pixel)
    requires Sized(before) && Contained(before) && before.children != [] && Covers(before, px, py)
    requires Sized(moved)
    requires Top(before, px, py) == Some(shown)
    ensures var win := before.children[|before.children| - 1];
            var after := WithLast(before, moved);
            && Sized(after) && Top(after, px, py).Some?
            && var cleared := if Inside(win, px, py) then Color(after, px, py, shown) else shown;
               Color(moved, px, py, cleared) == Top(after, px, py).value
  {
    var k := |before.children| - 1;
    var others, win := before.children[..k], before.children[k];
    assert before.children == others + [win];
    SizedAt(before.children, k);
    ContainedAt(before.children, before, k);
    TopLast(others, win, px, py);
    TopLast(others, moved, px, py);
    var after := WithLast(before, moved);
    assert Own(before, px, py).Some? && Own(after, px, py) == Own(before, px, py);
    ColorIsTop(after, px, py, shown);
    if !Inside(win, px, py) {
      NothingOutside(win, px, py);
    }
    var cleared := if Inside(win, px, py) then Color(after, px, py, shown) else shown;
    ColorIsTop(moved, px, py, cleared);
  }

  // ----------------------------------------------------------- hit testing

  /** The elements in paint order, without the subtree of the ignored one. */
  function PaintOrder(n: Node, ignored: nat): seq<Node>
    decreases n, 1
  {
    if n.handle == ignored then [] else [n] + PaintOrderAll(n.children, ignored)
  }

  function PaintOrderAll(cs: seq<Node>, ignored: nat): seq<Node>
    decreases cs, 0
  {
    if cs == [] then [] else PaintOrder(cs[0], ignored) + PaintOrderAll(cs[1..], ignored)
  }

  /** The handle of the last element of the list that contains the point; 0 for none. */
  function LastContaining(s: seq<Node>, px: nat, py: nat): nat {
    if s == [] then 0
    else if Inside(s[|s| - 1], px, py) then s[|s| - 1].handle
    else LastContaining(s[..|s| - 1], px, py)
  }

  /** The descent of graphics_get_child_at_position: the topmost child at the point,
      then its topmost child, and so on. */
  function Hit(n: Node, px: nat, py: nat, ignored: nat): nat
    decreases n, 1
  {
    var h := HitAll(n.children, px, py, ignored);
    if h != 0 then h else if Inside(n, px, py) then n.handle else 0
  }

  function HitAll(cs: seq<Node>, px: nat, py: nat, ignored: nat): nat
    decreases cs, 0
  {
    if cs == [] then 0
    else
      var h := HitAll(cs[1..], px, py, ignored);
      if h != 0 then h
      else if cs[0].handle != ignored && Inside(cs[0], px, py) then Hit(cs[0], px, py, ignored)
      else 0
  }

  /** Handles are addresses: none is NULL. */
  predicate Addressed(n: Node) {
    n.handle != 0 && AddressedAll(n.children)
  }

  predicate AddressedAll(cs: seq<Node>) {
    cs == [] || (Addressed(cs[0]) && AddressedAll(cs[1..]))
  }

  lemma {:induction false} LastOfConcat(s: seq<Node>, t: seq<Node>, px: nat, py: nat)
    requires forall n :: n in s + t ==> n.handle != 0
    ensures LastContaining(s + t, px, py) == if LastContaining(t, px, py) != 0 then LastContaining(t, px, py)
      else LastContaining(s, px, py)
    decreases |t|
  {
    if t == [] {
      assert s + t == s;
    } else {
      var last := |t| - 1;
      assert (s + t)[..|s + t| - 1] == s + t[..last];
      if !Inside(t[last], px, py) {
        LastOfConcat(s, t[..last], px, py);
      } else {
        assert t[last] in s + t;
      }
    }
  }

  lemma {:induction false} OrderAddressed(n: Node, ignored: nat)
    requires Addressed(n)
    ensures forall m :: m in PaintOrder(n, ignored) ==> m.handle != 0
    decreases n, 1
  {
    OrderAddressedAll(n.children, ignored);
  }

  lemma {:induction false} OrderAddressedAll(cs: seq<Node>, ignored: nat)
    requires AddressedAll(cs)
    ensures forall m :: m in PaintOrderAll(cs, ignored) ==> m.handle != 0
    decreases cs, 0
  {
    if cs != [] {
      OrderAddressed(cs[0], ignored);
      OrderAddressedAll(cs[1..], ignored);
    }
  }

  lemma {:induction false} NoneOutside(n: Node, px: nat, py: nat, ignored: nat)
    requires Contained(n) && !Inside(n, px, py)
    ensures forall m :: m in PaintOrder(n, ignored) ==> !Inside(m, px, py)
    decreases n, 1
  {
    NoneOutsideAll(n.children, n, px, py, ignored);
  }

  lemma {:induction false} NoneOutsideAll(cs: seq<Node>, n: Node, px: nat, py: nat, ignored: nat)
    requires ContainedAll(cs, n) && !Inside(n, px, py)
    ensures forall m :: m in PaintOrderAll(cs, ignored) ==> !Inside(m, px, py)
    decreases cs, 0
  {
    if cs != [] {
      NoneOutside(cs[0], px, py, ignored);
      NoneOutsideAll(cs[1..], n, px, py, ignored);
    }
  }

  lemma {:induction false} NoneContaining(s: seq<Node>, px: nat, py: nat)
    requires forall m :: m in s ==> !Inside(m, px, py)
    ensures LastContaining(s, px, py) == 0
    decreases |s|
  {
    if s != [] {
      NoneContaining(s[..|s| - 1], px, py);
    }
  }

  /** The reverse descent finds exactly the last painted element over the point, skipping
      the ignored subtree. */
  lemma {:induction false} HitIsLastPainted(n: Node, px: nat, py: nat, ignored: nat)
    requires Contained(n) && Addressed(n) && n.handle != ignored
    ensures Hit(n, px, py, ignored) == LastContaining(PaintOrder(n, ignored), px, py)
    ensures Inside(n, px, py) ==> Hit(n, px, py, ignored) != 0
    decreases n, 1
  {
    HitAllIsLastPainted(n.children, n, px, py, ignored);
    OrderAddressed(n, ignored);
    LastOfConcat([n], PaintOrderAll(n.children, ignored), px, py);
    assert [n][..0] == [];
  }

  lemma {:induction false} HitAllIsLastPainted(cs: seq<Node>, n: Node, px: nat, py: nat, ignored: nat)
    requires ContainedAll(cs, n) && AddressedAll(cs)
    ensures HitAll(cs, px, py, ignored) == LastContaining(PaintOrderAll(cs, ignored), px, py)
    decreases cs, 0
  {
    if cs != [] {
      HitAllIsLastPainted(cs[1..], n, px, py, ignored);
      OrderAddressedAll(cs, ignored);
      LastOfConcat(PaintOrder(cs[0], ignored), PaintOrderAll(cs[1..], ignored), px, py);
      if cs[0].handle != ignored {
        HitIsLastPainted(cs[0], px, py, ignored);
        if !Inside(cs[0], px, py) {
          NoneOutside(cs[0], px, py, ignored);
          NoneContaining(PaintOrder(cs[0], ignored), px, py);
        }
      }
    }
  }
}
