/** Graphics elements and the screen (graphics/graphics.c), and the move of a window
    (window_position_set in graphics/window.c). */
module Graphics {
  import opened Common
  import opened Compositing

  class GraphicsInfo {
    /** The address of the element. */
    const handle: nat
    const width: nat
    const height: nat
    const key: Pixel
    const pixels: seq<Pixel>
    var relX: nat
    var relY: nat
    var startX: nat
    var startY: nat
    var parent: GraphicsInfo?
    var children: seq<GraphicsInfo>
    /** The tree below this element as a value. */
    ghost var view: Node
    ghost var repr: set<GraphicsInfo>
    /** The ancestors, nearest first. */
    ghost var lineage: seq<GraphicsInfo>

    ghost predicate Valid()
      reads this, repr
      decreases repr
    {
      && this in repr
      && view.handle == handle && view.x == startX && view.y == startY && view.relX == relX && view.relY == relY
      && view.w == width && view.h == height && view.key == key && view.pixels == pixels
      && Sized(view) && |view.children| == |children|
      && (forall i :: 0 <= i < |children| ==>
            && children[i] in repr && children[i].repr <= repr && this !in children[i].repr
            && children[i].Valid() && view.children[i] == children[i].view
            && children[i].parent == this && children[i].lineage == [this] + lineage)
      && (forall i, j :: 0 <= i < j < |children| ==> children[i].repr !! children[j].repr)
    }

    constructor (handle: nat, x: nat, y: nat, width: nat, height: nat, key: Pixel, pixels: seq<Pixel>)
      requires |pixels| == width * height
      ensures Valid() && repr == {this} && fresh(repr) && parent == null && lineage == []
      ensures view == Node(handle, x, y, x, y, width, height, key, pixels, [])
    {
      this.handle, this.width, this.height, this.key, this.pixels := handle, width, height, key, pixels;
      relX, relY, startX, startY := x, y, x, y;
      parent, children, lineage := null, [], [];
      view := Node(handle, x, y, x, y, width, height, key, pixels, []);
      repr := {this};
    }

    /** graphics_info_recalculate: the element follows its parent, the tree below it
        follows the element. */
    method Recalculate()
      requires Valid() && (parent != null ==> parent !in repr)
      modifies repr
      ensures Valid() && repr == old(repr) && parent == old(parent) && lineage == old(lineage)
      ensures view == if parent == null then Placed(old(view), old(startX), old(startY))
                      else Placed(old(view), old(relX + parent.startX), old(relY + parent.startY))
      decreases repr, 2
    {
      hide Placed, Sized, SizedAll;
      if parent != null {
        startX := relX + parent.startX;
        startY := relY + parent.startY;
      }
      ghost var was := view;
      RecalculateChildren(was);
      SetView(was);
    }

    /** The ghost view follows the fields. */
    ghost method SetView(was: Node)
      requires this in repr && |was.children| == |children| && Owned() && Sized(was)
      requires was.handle == handle && was.relX == relX && was.relY == relY
      requires was.w == width && was.h == height && was.key == key && was.pixels == pixels
      requires forall i :: 0 <= i < |children| ==>
        children[i].view == Placed(was.children[i], startX + was.children[i].relX, startY + was.children[i].relY)
      modifies this`view
      ensures Valid() && view == Placed(was, startX, startY)
    {
      hide Sized, SizedAll;
      forall i | 0 <= i < |children| ensures PlacedAll(was.children, startX, startY)[i] == children[i].view {
        PlacedAt(was.children, startX, startY, i);
      }
      PlacedKeepsSize(was, startX, startY);
      view := Placed(was, startX, startY);
    }

    /** graphics.c:384-398. */
    method RecalculateChildren(ghost was: Node)
      requires this in repr && |was.children| == |children|
      requires Owned()
      requires forall i :: 0 <= i < |children| ==> children[i].view == was.children[i]
      modifies repr - {this}
      ensures Owned()
      ensures forall i :: 0 <= i < |children| ==>
        children[i].repr == old(children[i].repr) &&
        children[i].view == Placed(was.children[i], startX + was.children[i].relX, startY + was.children[i].relY)
      decreases repr, 1
    {
      var i := 0;
      while i < |children|
        invariant 0 <= i <= |children| && Owned()
        invariant forall k :: 0 <= k < |children| ==> children[k].repr == old(children[k].repr)
        invariant forall k :: i <= k < |children| ==> children[k].view == was.children[k]
        invariant forall k :: 0 <= k < i ==>
          children[k].view == Placed(was.children[k], startX + was.children[k].relX, startY + was.children[k].relY)
      {
        RecalculateOne(i);
        i := i + 1;
      }
    }

    method RecalculateOne(i: nat)
      requires this in repr && Owned() && i < |children|
      modifies children[i].repr
      ensures Owned()
      ensures forall k :: 0 <= k < |children| ==> children[k].repr == old(children[k].repr)
      ensures forall k :: 0 <= k < |children| ==>
        children[k].view == if k != i then old(children[k].view)
                            else Placed(old(children[k].view), startX + old(children[k].view).relX,
                              startY + old(children[k].view).relY)
      decreases repr, 0
    {
      hide Placed;
      var c := children[i];
      assert c.Valid() && c in c.repr && c.view.relX == c.relX && c.view.relY == c.relY;
      forall k | 0 <= k < |children| && k != i
        ensures children[k] in children[k].repr && children[k].repr !! c.repr
      {
        assert children[k].Valid();
      }
      c.Recalculate();
    }

    /** The assignments of window.c:489-492 and the recalculation after them. */
    method MoveTo(x: nat, y: nat)
      requires Valid() && parent != null && parent !in repr && parent.startX == 0 && parent.startY == 0
      modifies repr
      ensures Valid() && repr == old(repr) && parent == old(parent) && lineage == old(lineage)
      ensures view == Placed(old(view).(relX := x, relY := y), x, y)
    {
      relX, relY, startX, startY := x, y, x, y;
      view := view.(x := x, y := y, relX := x, relY := y);
      Recalculate();
    }

    /** The ghost view after the child at `k` has changed. */
    ghost method SetChild(k: nat)
      requires this in repr && Owned() && k < |children| == |view.children|
      requires view.handle == handle && view.x == startX && view.y == startY && view.relX == relX && view.relY == relY
      requires view.w == width && view.h == height && view.key == key && view.pixels == pixels && Sized(view)
      requires forall i :: 0 <= i < |children| && i != k ==> view.children[i] == children[i].view
      modifies this`view
      ensures Valid() && view == WithChild(old(view), k, children[k].view)
    {
      SizedWith(view.children, k, children[k].view);
      view := WithChild(view, k, children[k].view);
    }

    /** The children are valid, owned and apart from each other. */
    ghost predicate Owned()
      reads this, repr
    {
      && (forall i :: 0 <= i < |children| ==>
            && children[i] in repr && children[i].repr <= repr && this !in children[i].repr
            && children[i].Valid() && children[i].parent == this && children[i].lineage == [this] + lineage)
      && (forall i, j :: 0 <= i < j < |children| ==> children[i].repr !! children[j].repr)
    }
  }

  function WithChild(n: Node, k: nat, c: Node): Node
    requires k < |n.children|
  {
    n.(children := n.children[k := c])
  }

  lemma {:induction false} SizedWith(cs: seq<Node>, k: nat, c: Node)
    requires SizedAll(cs) && k < |cs| && Sized(c)
    ensures SizedAll(cs[k := c])
    decreases |cs|
  {
    if k > 0 {
      SizedWith(cs[1..], k - 1, c);
      assert cs[k := c][1..] == cs[1..][k - 1 := c];
    } else {
      assert cs[k := c][1..] == cs[1..];
    }
  }

  lemma {:induction false} PlacedKeepsSize(n: Node, x: nat, y: nat)
    requires Sized(n)
    ensures Sized(Placed(n, x, y))
    decreases n, 1
  {
    PlacedAllKeepSize(n.children, x, y);
  }

  lemma {:induction false} PlacedAllKeepSize(cs: seq<Node>, x: nat, y: nat)
    requires SizedAll(cs)
    ensures SizedAll(PlacedAll(cs, x, y))
    decreases cs, 0
  {
    if cs != [] {
      PlacedKeepsSize(cs[0], x + cs[0].relX, y + cs[0].relY);
      PlacedAllKeepSize(cs[1..], x, y);
      assert PlacedAll(cs, x, y)[1..] == PlacedAll(cs[1..], x, y);
    }
  }

  /** The pixel at local coordinates, None where the transparency key says so. */
  function Source(g: GraphicsInfo, lx: nat, ly: nat): Option<Pixel>
    requires |g.pixels| == g.width * g.height && lx < g.width && ly < g.height
  {
    IndexBound(g.width, g.height, lx, ly);
    var p := g.pixels[Index(g.width, lx, ly)];
    if g.key != BLACK && p == g.key then None else Some(p)
  }

  class Screen {
    /** Row by row; a scan line may be longer than the visible row. */
    const frame: array2<Pixel>
    const resX: nat
    const resY: nat

    constructor (frame: array2<Pixel>, resX: nat, resY: nat)
      requires resY <= frame.Length0 && resX <= frame.Length1
      ensures this.frame == frame && this.resX == resX && this.resY == resY
    {
      this.frame, this.resX, this.resY := frame, resX, resY;
    }

    predicate Ready() { resY <= frame.Length0 && resX <= frame.Length1 }

    predicate Visible(r: int, c: int) { 0 <= c < resX && 0 <= r < resY }

    /** The rectangle that graphics_paste_pixels_to_framebuffer fills. */
    predicate Pasted(g: GraphicsInfo, srcX: nat, srcY: nat, width: nat, height: nat, dstX: nat, dstY: nat, r: int,
        c: int) {
      && Visible(r, c)
      && dstX <= c && c < dstX + width && srcX + (c - dstX) < g.width
      && dstY <= r && r < dstY + height && srcY + (r - dstY) < g.height
    }

    method Paste(g: GraphicsInfo, srcX: nat, srcY: nat, width: nat, height: nat, dstX: nat, dstY: nat)
      requires Ready() && |g.pixels| == g.width * g.height && srcX <= g.width && srcY <= g.height
      modifies frame
      ensures forall r, c :: 0 <= r < frame.Length0 && 0 <= c < frame.Length1 ==>
        frame[r, c] == if Pasted(g, srcX, srcY, width, height, dstX, dstY, r, c)
                       then Over(Source(g, srcX + (c - dstX), srcY + (r - dstY)), old(frame[r, c]))
                         else old(frame[r, c])
    {
      var srcXEnd, srcYEnd := srcX + width, srcY + height;
      if srcXEnd > g.width {
        srcXEnd := g.width;
      }
      if srcYEnd > g.height {
        srcYEnd := g.height;
      }
      var finalW, finalH := srcXEnd - srcX, srcYEnd - srcY;
      if finalW == 0 || finalH == 0 {
        return;
      }
      if dstX >= resX || dstY >= resY {
        return;
      }
      var dstXEnd, dstYEnd := dstX + finalW, dstY + finalH;
      if dstXEnd > resX {
        dstXEnd := resX;
      }
      if dstYEnd > resY {
        dstYEnd := resY;
      }
      var clippedW, clippedH := dstXEnd - dstX, dstYEnd - dstY;
      var ly := 0;
      while ly < clippedH
        invariant 0 <= ly <= clippedH
        invariant forall r, c :: 0 <= r < frame.Length0 && 0 <= c < frame.Length1 ==>
          frame[r, c] == if dstX <= c < dstX + clippedW && dstY <= r < dstY + ly
                         then Over(Source(g, srcX + (c - dstX), srcY + (r - dstY)), old(frame[r, c]))
                           else old(frame[r, c])
      {
        PasteLine(g, srcX, srcY + ly, clippedW, dstX, dstY + ly);
        ly := ly + 1;
      }
    }

    /** graphics.c:152-173: one line, skipping transparent pixels. */
    method PasteLine(g: GraphicsInfo, srcX: nat, srcY: nat, clippedW: nat, dstX: nat, dstY: nat)
      requires Ready() && |g.pixels| == g.width * g.height && srcX + clippedW <= g.width && srcY < g.height
      requires dstX + clippedW <= resX && dstY < resY
      modifies frame
      ensures forall r, c :: 0 <= r < frame.Length0 && 0 <= c < frame.Length1 ==>
        frame[r, c] == if dstX <= c < dstX + clippedW && r == dstY
                       then Over(Source(g, srcX + (c - dstX), srcY), old(frame[r, c])) else old(frame[r, c])
    {
      var lx := 0;
      while lx < clippedW
        invariant 0 <= lx <= clippedW
        invariant forall r, c :: 0 <= r < frame.Length0 && 0 <= c < frame.Length1 ==>
          frame[r, c] == if dstX <= c < dstX + lx && r == dstY
                         then Over(Source(g, srcX + (c - dstX), srcY), old(frame[r, c])) else old(frame[r, c])
      {
        IndexBound(g.width, g.height, srcX + lx, srcY);
        var p := g.pixels[Index(g.width, srcX + lx, srcY)];
        lx := lx + 1;
        if g.key != BLACK {
          if p == g.key {
            continue;
          }
        }
        frame[dstY, dstX + lx - 1] := p;
      }
    }

    /** graphics_redraw_only. */
    method RedrawOnly(g: GraphicsInfo)
      requires Ready() && g.Valid()
      modifies frame
      ensures forall r, c :: 0 <= r < frame.Length0 && 0 <= c < frame.Length1 ==>
        frame[r, c] == if Visible(r, c) then Over(Own(g.view, c, r), old(frame[r, c])) else old(frame[r, c])
    {
      Paste(g, 0, 0, g.width, g.height, g.startX, g.startY);
    }

    /** graphics_redraw: every visible point gets the colour of the tree over what was
        there. */
    method Redraw(g: GraphicsInfo)
      requires Ready() && g.Valid()
      modifies frame
      ensures forall r, c :: 0 <= r < frame.Length0 && 0 <= c < frame.Length1 ==>
        frame[r, c] == if Visible(r, c) then Color(g.view, c, r, old(frame[r, c])) else old(frame[r, c])
      decreases g.repr
    {
      RedrawOnly(g);
      ghost var cs := g.view.children;
      var i := 0;
      while i < |g.children|
        invariant 0 <= i <= |g.children| && SizedAll(cs[..i])
        invariant forall r, c :: 0 <= r < frame.Length0 && 0 <= c < frame.Length1 ==>
          frame[r, c] == if Visible(r, c) then ColorAll(cs[..i], c, r, Over(Own(g.view, c, r), old(frame[r, c])))
            else old(frame[r, c])
      {
        SizedAt(cs, i);
        forall r: nat, c: nat | r < frame.Length0 && c < frame.Length1
          ensures ColorAll(cs[..i + 1], c, r, Over(Own(g.view, c, r), old(frame[r, c]))) ==
                  Color(cs[i], c, r, ColorAll(cs[..i], c, r, Over(Own(g.view, c, r), old(frame[r, c]))))
        {
          ColorMore(cs, i, c, r, Over(Own(g.view, c, r), old(frame[r, c])));
        }
        Redraw(g.children[i]);
        i := i + 1;
      }
      assert cs[..i] == cs;
    }

    /** A point of the element's rectangle inside the local rectangle asked for. */
    predicate InRegion(n: Node, lx: nat, ly: nat, w: nat, h: nat, r: int, c: int) {
      && Visible(r, c) && Inside(n, c, r)
      && n.x + lx <= c < n.x + lx + w && n.y + ly <= r < n.y + ly + h
    }

    /** graphics_redraw_region: in a contained tree every visible point of the region gets
        the colour that graphics_redraw would give it, and no other point changes. */
    method RedrawRegion(g: GraphicsInfo, lx: nat, ly: nat, w: nat, h: nat)
      requires Ready() && g.Valid() && Contained(g.view)
      modifies frame
      ensures forall r, c :: 0 <= r < frame.Length0 && 0 <= c < frame.Length1 ==>
        frame[r, c] == if InRegion(g.view, lx, ly, w, h, r, c) then Color(g.view, c, r, old(frame[r, c]))
          else old(frame[r, c])
      decreases g.repr, 1
    {
      if lx >= g.width || ly >= g.height {
        return;
      }
      var width, height := w, h;
      if lx + width > g.width {
        width := g.width - lx;
      }
      if ly + height > g.height {
        height := g.height - ly;
      }
      var left, top := g.startX + lx, g.startY + ly;
      assert forall r, c :: InRegion(g.view, lx, ly, w, h, r, c) <==> InBox(left, top, width, height, r, c);
      Paste(g, lx, ly, width, height, left, top);
      hide Color, ColorAll, Own, Over, Contained, ContainedAll, Sized, SizedAll, InRegion, Inside, Source;
      assert forall r, c :: 0 <= r < frame.Length0 && 0 <= c < frame.Length1 ==>
        frame[r, c] == if InBox(left, top, width, height, r, c) then Over(Own(g.view, c, r), old(frame[r, c]))
          else old(frame[r, c])
        by { SourceIsOwn(g); }
      RedrawChildren(g, left, top, width, height);
    }

    predicate InBox(left: nat, top: nat, width: nat, height: nat, r: int, c: int) {
      Visible(r, c) && left <= c < left + width && top <= r < top + height
    }

    /** graphics.c:298-330: each child in turn, in what it shares with the rectangle. */
    method RedrawChildren(g: GraphicsInfo, left: nat, top: nat, width: nat, height: nat)
      requires Ready() && g.Valid() && Contained(g.view)
      modifies frame
      ensures forall r, c :: 0 <= r < frame.Length0 && 0 <= c < frame.Length1 ==>
        frame[r, c] == if InBox(left, top, width, height, r, c) then ColorAll(g.view.children, c, r, old(frame[r, c]))
          else old(frame[r, c])
      decreases g.repr, 0
    {
      ghost var cs := g.view.children;
      var i := 0;
      while i < |g.children|
        invariant 0 <= i <= |g.children| && SizedAll(cs[..i])
        invariant forall r, c :: 0 <= r < frame.Length0 && 0 <= c < frame.Length1 ==>
          frame[r, c] == if InBox(left, top, width, height, r, c) then ColorAll(cs[..i], c, r, old(frame[r, c]))
            else old(frame[r, c])
      {
        SizedAt(cs, i);
        ContainedAt(cs, g.view, i);
        forall r: nat, c: nat | r < frame.Length0 && c < frame.Length1
          ensures ColorAll(cs[..i + 1], c, r, old(frame[r, c])) ==
            Color(cs[i], c, r, ColorAll(cs[..i], c, r, old(frame[r, c])))
          ensures !Inside(cs[i], c, r) ==>
            Color(cs[i], c, r, ColorAll(cs[..i], c, r, old(frame[r, c]))) == ColorAll(cs[..i], c, r, old(frame[r, c]))
        {
          ColorMore(cs, i, c, r, old(frame[r, c]));
          if !Inside(cs[i], c, r) { UnchangedOutside(cs[i], c, r); }
        }
        RedrawOverlap(g.children[i], left, top, width, height);
        i := i + 1;
      }
      assert cs[..i] == cs;
    }

    /** graphics.c:308-329: redraw what a child shares with an absolute rectangle. */
    method RedrawOverlap(child: GraphicsInfo, left: nat, top: nat, width: nat, height: nat)
      requires Ready() && child.Valid() && Contained(child.view)
      modifies frame
      ensures forall r, c :: 0 <= r < frame.Length0 && 0 <= c < frame.Length1 ==>
        frame[r, c] == if InBox(left, top, width, height, r, c) && Inside(child.view, c, r)
                       then Color(child.view, c, r, old(frame[r, c])) else old(frame[r, c])
      decreases child.repr, 2
    {
      var il, it := Max(child.startX, left), Max(child.startY, top);
      var ir, ib := Min(child.startX + child.width, left + width), Min(child.startY + child.height, top + height);
      if ir > il && ib > it {
        RedrawRegion(child, il - child.startX, it - child.startY, ir - il, ib - it);
      }
    }
  }

  lemma SourceIsOwn(g: GraphicsInfo)
    requires g.Valid()
    ensures forall px: nat, py: nat :: Inside(g.view, px, py) ==>
      Source(g, px - g.startX, py - g.startY) == Own(g.view, px, py)
  {
  }

  lemma UnchangedOutside(n: Node, px: nat, py: nat)
    requires Sized(n) && Contained(n) && !Inside(n, px, py)
    ensures forall under :: Color(n, px, py, under) == under
  {
    NothingOutside(n, px, py);
    forall under ensures Color(n, px, py, under) == under {
      ColorIsTop(n, px, py, under);
    }
  }

  class Window {
    var x: nat
    var y: nat
    const width: nat
    const height: nat
    const root: GraphicsInfo
    const borderless: bool

    constructor (x: nat, y: nat, width: nat, height: nat, root: GraphicsInfo, borderless: bool)
      ensures this.x == x && this.y == y && this.width == width && this.height == height
      ensures this.root == root && this.borderless == borderless
    {
      this.x, this.y, this.width, this.height, this.root, this.borderless := x, y, width, height, root, borderless;
    }
  }

  /** window.c:472-482: a position that would leave the screen is pulled back to one pixel
      before its edge. */
  function Clamped(position: nat, size: nat, limit: nat): (r: nat)
    requires position + size <= limit || size < limit
    ensures r + size <= limit
  {
    if position + size > limit then limit - size - 1 else position
  }

  /** The window's root is child `k` of the opaque screen and stands where the window says;
      a borderless window is painted last and is as large as its root. */
  ghost predicate OnScreen(display: Screen, screen: GraphicsInfo, win: Window, k: nat)
    reads screen, screen.repr, win
  {
    && screen.Valid() && Backdrop(display, screen)
    && k < |screen.children| && screen.children[k] == win.root
    && win.root.startX == win.x && win.root.startY == win.y
    && (win.borderless ==>
          && k == |screen.children| - 1 && win.width == win.root.width && win.height == win.root.height
          && Contained(screen.view) && Aligned(win.root.view))
  }

  lemma {:induction false} SameBox(cs: seq<Node>, n: Node, m: Node)
    requires ContainedAll(cs, n) && m.x == n.x && m.y == n.y && m.w == n.w && m.h == n.h
    ensures ContainedAll(cs, m)
    decreases |cs|
  {
    if cs != [] {
      SameBox(cs[1..], n, m);
    }
  }

  lemma {:induction false} ContainedWith(cs: seq<Node>, n: Node, k: nat, c: Node)
    requires ContainedAll(cs, n) && k < |cs| && Fits(c, n) && Contained(c)
    ensures ContainedAll(cs[k := c], n)
    decreases |cs|
  {
    if k > 0 {
      ContainedWith(cs[1..], n, k - 1, c);
      assert cs[k := c][1..] == cs[1..][k - 1 := c];
    } else {
      assert cs[k := c][1..] == cs[1..];
    }
  }

  /** A window moved inside the screen leaves a contained tree. */
  lemma MovedContained(before: Node, x: nat, y: nat)
    requires Sized(before) && Contained(before) && before.children != []
    requires var win := before.children[|before.children| - 1];
             Aligned(win) && before.x <= x && x + win.w <= before.x + before.w && before.y <= y
               && y + win.h <= before.y + before.h
    ensures var k := |before.children| - 1;
            var moved := Placed(before.children[k].(relX := x, relY := y), x, y);
            WithChild(before, k, moved) == WithLast(before, moved) && Contained(WithLast(before, moved))
  {
    var k := |before.children| - 1;
    var win := before.children[k];
    SizedAt(before.children, k);
    ContainedAt(before.children, before, k);
    var start := win.(relX := x, relY := y);
    SameBox(win.children, win, start);
    PlacedOk(start, x, y);
    var moved := Placed(start, x, y);
    ContainedWith(before.children, before, k, moved);
    var after := WithLast(before, moved);
    assert after.children == before.children[k := moved];
    SameBox(after.children, before, after);
  }

  /** Every visible point shows the topmost opaque pixel of the tree. */
  ghost predicate Shows(display: Screen, tree: Node, frame: array2<Pixel>)
    requires Sized(tree)
    reads frame
  {
    display.Ready() && frame == display.frame &&
    forall r: nat, c: nat :: r < display.resY && c < display.resX ==> Top(tree, c, r) == Some(frame[r, c])
  }

  /** window.c:503-506: the old rectangle is painted from the screen root, then the window
      where it now is. */
  method RepaintMoved(display: Screen, screen: GraphicsInfo, root: GraphicsInfo, ghost before: Node, oldX: nat,
      oldY: nat)
    requires display.Ready() && screen.Valid() && Contained(screen.view) && root.Valid() && Backdrop(display, screen)
    requires Sized(before) && Contained(before) && before.children != [] && screen.view == WithLast(before, root.view)
    requires var win := before.children[|before.children| - 1];
             win.x == oldX && win.y == oldY && win.w == root.width && win.h == root.height
    requires Shows(display, before, display.frame)
    modifies display.frame
    ensures Shows(display, screen.view, display.frame)
  {
    ghost var k := |before.children| - 1;
    ghost var win := before.children[k];
    ContainedAt(before.children, before, k);
    ghost var after, moved := screen.view, root.view;
    hide Color, ColorAll, Own, Over, Contained, ContainedAll, Sized, SizedAll, Top, TopAll, GraphicsInfo.Valid;
    display.RedrawRegion(screen, screen.startX + oldX, screen.startY + oldY, root.width, root.height);
    forall r: nat, c: nat | r < display.resY && c < display.resX
      ensures display.frame[r, c] ==
        if Inside(win, c, r) then Color(after, c, r, old(display.frame[r, c])) else old(display.frame[r, c])
    {
      assert display.InRegion(after, oldX, oldY, root.width, root.height, r, c) <==> Inside(win, c, r);
    }
    display.Redraw(root);
    forall r: nat, c: nat | r < display.resY && c < display.resX
      ensures Top(after, c, r) == Some(display.frame[r, c])
    {
      MovePoint(before, moved, c, r, old(display.frame[r, c]));
    }
  }

  /** The opaque screen at the origin, as large as the display. */
  predicate Backdrop(display: Screen, screen: GraphicsInfo)
    reads screen
  {
    && screen.startX == 0 && screen.startY == 0 && screen.key == BLACK
    && screen.width == display.resX && screen.height == display.resY
  }

  /** graphics_redraw_all: over an opaque screen the frame shows exactly the tree. */
  method RedrawAll(display: Screen, screen: GraphicsInfo)
    requires display.Ready() && screen.Valid() && Backdrop(display, screen)
    modifies display.frame
    ensures Shows(display, screen.view, display.frame)
  {
    display.Redraw(screen);
    ghost var tree := screen.view;
    forall r: nat, c: nat | r < display.resY && c < display.resX
      ensures Top(tree, c, r) == Some(display.frame[r, c])
    {
      ColorIsTop(tree, c, r, old(display.frame[r, c]));
      assert Own(tree, c, r).Some?;
    }
  }

  /** window.c:488-498. */
  method MoveRoot(screen: GraphicsInfo, win: Window, ghost k: nat, x: nat, y: nat)
    requires screen.Valid() && screen.startX == 0 && screen.startY == 0
    requires k < |screen.children| && screen.children[k] == win.root
    modifies win`x, win`y, win.root.repr, screen`view
    ensures screen.Valid() && win.root.Valid() && win.x == x && win.y == y
    ensures screen.children[k] == win.root && screen.repr == old(screen.repr)
    ensures win.root.view == Placed(old(win.root.view).(relX := x, relY := y), x, y)
    ensures k < |old(screen.view).children| && screen.view == WithChild(old(screen.view), k, win.root.view)
  {
    hide Placed, Sized, SizedAll, GraphicsInfo.Valid;
    var root := win.root;
    ValidParts(screen);
    SetApart(screen, k);
    win.x, win.y := x, y;
    root.MoveTo(x, y);
    assert screen.Owned();
    screen.SetChild(k);
    ValidParts(screen);
  }

  lemma ValidParts(g: GraphicsInfo)
    requires g.Valid()
    ensures g in g.repr && g.Owned() && Sized(g.view) && |g.view.children| == |g.children|
    ensures g.view.handle == g.handle && g.view.x == g.startX && g.view.y == g.startY && g.view.relX == g.relX
    ensures g.view.relY == g.relY
    ensures g.view.w == g.width && g.view.h == g.height && g.view.key == g.key && g.view.pixels == g.pixels
    ensures forall i :: 0 <= i < |g.children| ==> g.view.children[i] == g.children[i].view
  {
  }

  /** The other children keep apart from the one at `k`. */
  lemma SetApart(g: GraphicsInfo, k: nat)
    requires g.Owned() && k < |g.children|
    ensures forall i :: 0 <= i < |g.children| && i != k ==>
      g.children[i] in g.children[i].repr && g.children[i].repr !! g.children[k].repr
    ensures g.children[k] in g.children[k].repr && g !in g.children[k].repr
  {
    forall i | 0 <= i < |g.children| ensures g.children[i] in g.children[i].repr {
      assert g.children[i].Valid();
    }
  }

  /** window_position_set. The screen must show its tree before a borderless window is
      moved; afterwards it shows the new tree, as a full redraw would, although only the
      old rectangle and the window have been painted. */
  method WindowPositionSet(display: Screen, screen: GraphicsInfo, win: Window, ghost k: nat, newX: nat, newY: nat)
    requires display.Ready() && OnScreen(display, screen, win, k)
    requires newX + win.width <= screen.width || win.width < screen.width
    requires newY + win.height <= screen.height || win.height < screen.height
    requires win.borderless ==> Shows(display, screen.view, display.frame)
    modifies win`x, win`y, win.root.repr, screen`view, display.frame
    ensures screen.Valid() && win.x == Clamped(newX, win.width, screen.width)
    ensures win.y == Clamped(newY, win.height, screen.height)
    ensures k < |old(screen.view).children| && screen.view ==
      WithChild(old(screen.view), k, Placed(old(win.root.view).(relX := win.x, relY := win.y), win.x, win.y))
    ensures Shows(display, screen.view, display.frame)
  {
    hide Color, ColorAll, Own, Over, Contained, ContainedAll, Sized, SizedAll, Top, TopAll, Placed, Aligned, Shows,
         GraphicsInfo.Valid;
    var x, y := newX, newY;
    if newX + win.width > screen.width {
      x := screen.width - win.width - 1;
    }
    if newY + win.height > screen.height {
      y := screen.height - win.height - 1;
    }
    var oldX, oldY := win.x, win.y;
    ghost var before := screen.view;
    MirrorsFields(screen, k);
    MoveRoot(screen, win, k, x, y);
    if win.borderless {
      MovedContained(before, x, y);
      RepaintMoved(display, screen, win.root, before, oldX, oldY);
    } else {
      RedrawAll(display, screen);
    }
  }

  lemma MirrorsFields(screen: GraphicsInfo, k: nat)
    requires screen.Valid() && k < |screen.children|
    ensures Sized(screen.view) && |screen.view.children| == |screen.children| && screen.view.w == screen.width
    ensures screen.view.h == screen.height
    ensures screen.view.x == screen.startX && screen.view.y == screen.startY
    ensures var root := screen.children[k];
            root.Valid() && screen !in root.repr && root in root.repr && screen.view.children[k] == root.view
    ensures var root := screen.children[k];
            root.view.x == root.startX && root.view.y == root.startY && root.view.w == root.width
              && root.view.h == root.height
  {
  }
}
