/**
 The compositor (graphics/graphics.c): a tree of rectangles painted in pre-order.

 A graphic owns its pixels and knows its absolute and relative position.  `Screen` owns
 the framebuffer, one row every `pitch` pixels, which painting writes in place.
 Coordinates are natural numbers: the wrap-around of `uint32_t` is not modelled.
 */
module Graphics {
  import opened Basics

  datatype Pixel = Pixel(blue: bv8, green: bv8, red: bv8, reserved: bv8)

  /** As a transparency key, black means that there is none. */
  const BLACK := Pixel(0, 0, 0, 0)

  datatype Graphic = Graphic(id: nat, x: nat, y: nat, relX: nat, relY: nat, w: nat, h: nat,
                             pixels: seq<Pixel>, key: Pixel, z: int, children: seq<Graphic>)

  /** Half-open rectangle [left, right) by [top, bottom). */
  predicate InRect(left: int, top: int, right: int, bottom: int, px: int, py: int) {
    left <= px < right && top <= py < bottom
  }

  predicate Covers(g: Graphic, px: int, py: int) {
    InRect(g.x, g.y, g.x + g.w, g.y + g.h, px, py)
  }

  /** Every graphic of the tree has its width times height pixels. */
  predicate Filled(g: Graphic) {
    |g.pixels| == g.w * g.h && forall c :: c in g.children ==> Filled(c)
  }

  // ----------------------------------------------------------- what is painted

  lemma IndexInside(col: nat, row: nat, w: nat, h: nat)
    requires col < w && row < h
    ensures 0 <= row * w + col < w * h
  {
    MulStep(row, h, w);
    assert h * w == w * h;
    MulOrder(0, row, w);
  }

  function PixelOf(g: Graphic, col: nat, row: nat): Pixel
    requires |g.pixels| == g.w * g.h && col < g.w && row < g.h
  {
    IndexInside(col, row, g.w, g.h);
    g.pixels[row * g.w + col]
  }

  /** The pixels are stored row by row from the top, each row from the left. */
  lemma PixelAt(g: Graphic, k: nat)
    requires |g.pixels| == g.w * g.h && k < |g.pixels|
    ensures g.w > 0 && k % g.w < g.w && 0 <= k / g.w < g.h && g.pixels[k] == PixelOf(g, k % g.w, k / g.w)
  {
    RowOf(k, g.w, g.h);
  }

  lemma RowOf(k: nat, w: nat, h: nat)
    requires k < w * h
    ensures w > 0 && k % w < w && 0 <= k / w < h && k == k / w * w + k % w
  {
    assert h * w == w * h;
    if k / w >= h { MulOrder(h, k / w, w); }
  }

  predicate Opaque(g: Graphic) { g.key == BLACK }

  /** The screen pixel at (px, py) after `g` alone is painted over `under`. */
  function PaintOwn(g: Graphic, px: int, py: int, under: Pixel): Pixel
    requires |g.pixels| == g.w * g.h
  {
    if !Covers(g, px, py) then under
    else
      var p := PixelOf(g, px - g.x, py - g.y);
      if !Opaque(g) && p == g.key then under else p
  }

  /** ... after `g` and then its children are painted: a full redraw. */
  function Paint(g: Graphic, px: int, py: int, under: Pixel): Pixel
    requires Filled(g)
  {
    PaintList(g.children, px, py, PaintOwn(g, px, py, under))
  }

  function PaintList(gs: seq<Graphic>, px: int, py: int, under: Pixel): Pixel
    requires forall c :: c in gs ==> Filled(c)
  {
    if gs == [] then under
    else Paint(gs[|gs| - 1], px, py, PaintList(gs[..|gs| - 1], px, py, under))
  }

  /** The same, but nothing is painted outside of the rectangles of its ancestors. */
  function Clipped(g: Graphic, px: int, py: int, under: Pixel): Pixel
    requires Filled(g)
  {
    if !Covers(g, px, py) then under
    else ClippedList(g.children, px, py, PaintOwn(g, px, py, under))
  }

  function ClippedList(gs: seq<Graphic>, px: int, py: int, under: Pixel): Pixel
    requires forall c :: c in gs ==> Filled(c)
  {
    if gs == [] then under
    else Clipped(gs[|gs| - 1], px, py, ClippedList(gs[..|gs| - 1], px, py, under))
  }

  /** Each graphic below `g` lies inside its parent. */
  ghost predicate Contained(g: Graphic) {
    forall c :: c in g.children ==>
      g.x <= c.x && c.x + c.w <= g.x + g.w && g.y <= c.y && c.y + c.h <= g.y + g.h && Contained(c)
  }

  /** Contained, except perhaps that children of the root stick out of it. */
  ghost predicate ContainedBelow(root: Graphic) {
    forall c :: c in root.children ==> Contained(c)
  }

  lemma {:induction false} OutsideIsUntouched(g: Graphic, px: int, py: int, under: Pixel)
    requires Filled(g) && Contained(g) && !Covers(g, px, py)
    ensures Paint(g, px, py, under) == under
  {
    OutsideListUntouched(g.children, px, py, under);
  }

  lemma {:induction false} OutsideListUntouched(gs: seq<Graphic>, px: int, py: int, under: Pixel)
    requires forall c :: c in gs ==> Filled(c) && Contained(c) && !Covers(c, px, py)
    ensures PaintList(gs, px, py, under) == under
  {
    if gs != [] {
      var last := gs[|gs| - 1];
      OutsideListUntouched(gs[..|gs| - 1], px, py, under);
      OutsideIsUntouched(last, px, py, under);
    }
  }

  /** With contained children, clipping to the ancestors makes no difference. */
  lemma {:induction false} ClippedIsPaint(g: Graphic, px: int, py: int, under: Pixel)
    requires Filled(g) && Contained(g)
    ensures Clipped(g, px, py, under) == Paint(g, px, py, under)
  {
    if Covers(g, px, py) {
      ClippedListIsPaint(g.children, px, py, PaintOwn(g, px, py, under));
    } else {
      OutsideIsUntouched(g, px, py, under);
    }
  }

  lemma {:induction false} ClippedListIsPaint(gs: seq<Graphic>, px: int, py: int, under: Pixel)
    requires forall c :: c in gs ==> Filled(c) && Contained(c)
    ensures ClippedList(gs, px, py, under) == PaintList(gs, px, py, under)
  {
    if gs != [] {
      var last, before := gs[|gs| - 1], gs[..|gs| - 1];
      ClippedListIsPaint(before, px, py, under);
      ClippedIsPaint(last, px, py, PaintList(before, px, py, under));
    }
  }

  // ------------------------------------------------------------- framebuffer

  /** The framebuffer pixel in column `px` of row `py`. */
  function Look(fb: seq<Pixel>, pitch: nat, px: int, py: int): Pixel {
    if 0 <= px < pitch && 0 <= py && py * pitch + px < |fb| && 0 <= py * pitch + px then fb[py * pitch + px] else BLACK
  }

  /** So is the screen, `pitch` pixels to the row. */
  lemma LookAt(fb: seq<Pixel>, pitch: nat, h: nat, k: nat)
    requires |fb| == h * pitch && k < |fb|
    ensures pitch > 0 && 0 <= k / pitch < h && fb[k] == Look(fb, pitch, k % pitch, k / pitch)
  {
    assert h * pitch == pitch * h;
    RowOf(k, pitch, h);
  }

  lemma IndexIsUnique(pitch: nat, x1: nat, y1: nat, x2: nat, y2: nat)
    requires x1 < pitch && x2 < pitch && y1 * pitch + x1 == y2 * pitch + x2
    ensures x1 == x2 && y1 == y2
  {
    if y1 < y2 {
      MulOrder(y1 + 1, y2, pitch);
    } else if y2 < y1 {
      MulOrder(y2 + 1, y1, pitch);
    }
  }

  /** `graphics_paste_pixels_to_framebuffer`, one pixel of it. */
  function Pasted(g: Graphic, sx: nat, sy: nat, width: nat, height: nat, dx: nat, dy: nat, px: int, py: int,
                  under: Pixel): Pixel
    requires |g.pixels| == g.w * g.h
  {
    if InRect(dx, dy, dx + Min(width, g.w - sx), dy + Min(height, g.h - sy), px, py) then
      var p := PixelOf(g, sx + px - dx, sy + py - dy);
      if !Opaque(g) && p == g.key then under else p
    else under
  }

  /**
   In memory: pixel `i` of row `j` of the pasted part has come to its place in the framebuffer,
   or has left it as it was if it has the colour that is transparent.
   */
  ghost predicate PixelCopied(g: Graphic, sx: nat, sy: nat, dx: nat, dy: nat, pitch: nat, before: seq<Pixel>,
                              after: seq<Pixel>, i: nat, j: nat) {
    var from, to := (sy + j) * g.w + (sx + i), (dy + j) * pitch + (dx + i);
    && 0 <= from < |g.pixels| && 0 <= to < |after| == |before|
    && after[to] == if g.key != BLACK && g.pixels[from] == g.key then before[to] else g.pixels[from]
  }

  lemma PastedInMemory(g: Graphic, sx: nat, sy: nat, width: nat, height: nat, dx: nat, dy: nat, pitch: nat, h: nat,
                       before: seq<Pixel>, after: seq<Pixel>, i: nat, j: nat)
    requires |g.pixels| == g.w * g.h && |before| == |after| == h * pitch
    requires sx + i < g.w && sy + j < g.h && dx + i < pitch && dy + j < h && i < width && j < height
    requires Look(after, pitch, dx + i, dy + j) ==
             Pasted(g, sx, sy, width, height, dx, dy, dx + i, dy + j, Look(before, pitch, dx + i, dy + j))
    ensures PixelCopied(g, sx, sy, dx, dy, pitch, before, after, i, j)
  {
    IndexInside(sx + i, sy + j, g.w, g.h);
    IndexInside(dx + i, dy + j, pitch, h);
    assert pitch * h == h * pitch;
  }

  class Screen {
    const w: nat
    const h: nat
    const pitch: nat
    const fb: array<Pixel>

    predicate Valid() { w <= pitch && fb.Length == h * pitch }

    predicate OnScreen(px: int, py: int) { 0 <= px < w && 0 <= py < h }

    constructor (w: nat, h: nat, pitch: nat)
      requires w <= pitch
      ensures Valid() && this.w == w && this.h == h && this.pitch == pitch && fresh(fb)
    {
      this.w, this.h, this.pitch := w, h, pitch;
      fb := new Pixel[h * pitch](i => BLACK);
    }

    method PutPixel(px: nat, py: nat, p: Pixel)
      requires Valid() && OnScreen(px, py)
      modifies fb
      ensures forall x, y :: 0 <= x < pitch && 0 <= y < h ==>
        Look(fb[..], pitch, x, y) == if x == px && y == py then p else Look(old(fb[..]), pitch, x, y)
      ensures 0 <= py * pitch + px < fb.Length && fb[..] == old(fb[..])[py * pitch + px := p]
    {
      IndexInside(px, py, pitch, h);
      assert pitch * h == h * pitch;
      fb[py * pitch + px] := p;
      forall x, y | 0 <= x < pitch && 0 <= y < h
        ensures Look(fb[..], pitch, x, y) == if x == px && y == py then p else Look(old(fb[..]), pitch, x, y)
      {
        IndexInside(x, y, pitch, h);
        if y * pitch + x == py * pitch + px {
          IndexIsUnique(pitch, x, y, px, py);
        }
      }
    }

    /** The inner loop of the paste: one row, already clipped. */
    method PasteRow(g: Graphic, sx: nat, row: nat, width: nat, dx: nat, dy: nat)
      requires Valid() && |g.pixels| == g.w * g.h && sx + width <= g.w && row < g.h && dx + width <= w && dy < h
      modifies fb
      ensures forall x, y :: 0 <= x < pitch && 0 <= y < h ==>
        Look(fb[..], pitch, x, y) == Pasted(g, sx, row, width, 1, dx, dy, x, y, Look(old(fb[..]), pitch, x, y))
    {
      hide Look;
      for lx := 0 to width
        invariant forall x, y :: 0 <= x < pitch && 0 <= y < h ==>
          Look(fb[..], pitch, x, y) == Pasted(g, sx, row, lx, 1, dx, dy, x, y, Look(old(fb[..]), pitch, x, y))
      {
        IndexInside(sx + lx, row, g.w, g.h);
        var p := g.pixels[row * g.w + (sx + lx)];
        if g.key != BLACK {
          if p == g.key {
            continue;
          }
        }
        PutPixel(dx + lx, dy, p);
      }
    }

    /** `graphics_paste_pixels_to_framebuffer`. */
    method Paste(g: Graphic, sx: nat, sy: nat, width: nat, height: nat, dx: nat, dy: nat)
      requires Valid() && |g.pixels| == g.w * g.h && sx <= g.w && sy <= g.h
      modifies fb
      ensures forall x, y :: 0 <= x < pitch && 0 <= y < h ==>
        Look(fb[..], pitch, x, y) ==
        if x < w then Pasted(g, sx, sy, width, height, dx, dy, x, y, Look(old(fb[..]), pitch, x, y))
        else Look(old(fb[..]), pitch, x, y)
      ensures forall i: nat, j: nat ::
                i < width && sx + i < g.w && dx + i < w && j < height && sy + j < g.h && dy + j < h ==>
                  PixelCopied(g, sx, sy, dx, dy, pitch, old(fb[..]), fb[..], i, j)
    {
      PasteRows(g, sx, sy, width, height, dx, dy);
      hide Look, PixelOf, Pasted, PixelCopied;
      forall i: nat, j: nat | i < width && sx + i < g.w && dx + i < w && j < height && sy + j < g.h && dy + j < h
        ensures PixelCopied(g, sx, sy, dx, dy, pitch, old(fb[..]), fb[..], i, j)
      {
        PastedInMemory(g, sx, sy, width, height, dx, dy, pitch, h, old(fb[..]), fb[..], i, j);
      }
    }

    /** Its clipping and its loops. */
    method PasteRows(g: Graphic, sx: nat, sy: nat, width: nat, height: nat, dx: nat, dy: nat)
      requires Valid() && |g.pixels| == g.w * g.h && sx <= g.w && sy <= g.h
      modifies fb
      ensures forall x, y :: 0 <= x < pitch && 0 <= y < h ==>
        Look(fb[..], pitch, x, y) ==
        if x < w then Pasted(g, sx, sy, width, height, dx, dy, x, y, Look(old(fb[..]), pitch, x, y))
        else Look(old(fb[..]), pitch, x, y)
    {
      hide Look, PixelOf;
      var finalW := Min(sx + width, g.w) - sx;
      var finalH := Min(sy + height, g.h) - sy;
      if finalW == 0 || finalH == 0 {
        return;
      }
      if dx >= w || dy >= h {
        return;
      }
      var clippedW := Min(dx + finalW, w) - dx;
      var clippedH := Min(dy + finalH, h) - dy;
      if clippedW == 0 || clippedH == 0 {
        return;
      }
      for ly := 0 to clippedH
        invariant forall x, y :: 0 <= x < pitch && 0 <= y < h ==>
          Look(fb[..], pitch, x, y) ==
          if x < w then Pasted(g, sx, sy, clippedW, ly, dx, dy, x, y, Look(old(fb[..]), pitch, x, y))
          else Look(old(fb[..]), pitch, x, y)
      {
        PasteRow(g, sx, sy + ly, clippedW, dx, dy + ly);
      }
    }

    /** `graphics_redraw_only`. */
    method RedrawOnly(g: Graphic)
      requires Valid() && |g.pixels| == g.w * g.h
      modifies fb
      ensures forall x, y :: 0 <= x < pitch && 0 <= y < h ==>
        Look(fb[..], pitch, x, y) ==
        if x < w then PaintOwn(g, x, y, Look(old(fb[..]), pitch, x, y)) else Look(old(fb[..]), pitch, x, y)
    {
      hide Look, PixelOf;
      Paste(g, 0, 0, g.w, g.h, g.x, g.y);
    }

    /** `graphics_redraw`, with the loop of `graphics_redraw_children`. */
    method Redraw(g: Graphic)
      requires Valid() && Filled(g)
      modifies fb
      ensures forall x, y :: 0 <= x < pitch && 0 <= y < h ==>
        Look(fb[..], pitch, x, y) ==
        if x < w then Paint(g, x, y, Look(old(fb[..]), pitch, x, y)) else Look(old(fb[..]), pitch, x, y)
      decreases g
    {
      hide Look, PaintOwn;
      RedrawOnly(g);
      for i := 0 to |g.children|
        invariant forall x, y :: 0 <= x < pitch && 0 <= y < h ==>
          Look(fb[..], pitch, x, y) ==
          if x < w then PaintList(g.children[..i], x, y, PaintOwn(g, x, y, Look(old(fb[..]), pitch, x, y)))
          else Look(old(fb[..]), pitch, x, y)
      {
        assert g.children[..i + 1][..i] == g.children[..i];
        Redraw(g.children[i]);
      }
      assert g.children[..|g.children|] == g.children;
    }

    /** `graphics_redraw_region`; the rectangle is relative to `g`. */
    method RedrawRegion(g: Graphic, localX: nat, localY: nat, width: nat, height: nat)
      requires Valid() && Filled(g)
      modifies fb
      ensures forall x, y :: 0 <= x < pitch && 0 <= y < h ==>
        Look(fb[..], pitch, x, y) ==
        if x < w && InRegion(g, localX, localY, width, height, x, y)
        then Clipped(g, x, y, Look(old(fb[..]), pitch, x, y)) else Look(old(fb[..]), pitch, x, y)
      decreases g, 0
    {
      hide Look, PaintOwn, Clipped;
      if localX >= g.w || localY >= g.h {
        return;
      }
      var cutW := if localX + width > g.w then g.w - localX else width;
      var cutH := if localY + height > g.h then g.h - localY else height;
      var left, top := g.x + localX, g.y + localY;
      PasteRegion(g, localX, localY, cutW, cutH);
      var right, bottom := left + cutW, top + cutH;
      for i := 0 to |g.children|
        invariant forall x, y :: 0 <= x < pitch && 0 <= y < h ==>
          Look(fb[..], pitch, x, y) ==
          if x < w && InRect(left, top, right, bottom, x, y)
          then ClippedList(g.children[..i], x, y, PaintOwn(g, x, y, Look(old(fb[..]), pitch, x, y)))
          else Look(old(fb[..]), pitch, x, y)
      {
        assert g.children[..i + 1][..i] == g.children[..i];
        RedrawPart(g.children[i], left, top, right, bottom);
      }
      assert g.children[..|g.children|] == g.children;
      forall x, y | InRect(left, top, right, bottom, x, y)
        ensures forall p :: Clipped(g, x, y, p) == ClippedList(g.children, x, y, PaintOwn(g, x, y, p))
      {
        ClippedInside(g, x, y);
      }
    }

    method PasteRegion(g: Graphic, localX: nat, localY: nat, width: nat, height: nat)
      requires Valid() && |g.pixels| == g.w * g.h && localX + width <= g.w && localY + height <= g.h
      modifies fb
      ensures forall x, y :: 0 <= x < pitch && 0 <= y < h ==>
        Look(fb[..], pitch, x, y) ==
        if x < w && InRect(g.x + localX, g.y + localY, g.x + localX + width, g.y + localY + height, x, y)
        then PaintOwn(g, x, y, Look(old(fb[..]), pitch, x, y)) else Look(old(fb[..]), pitch, x, y)
    {
      hide Look, PixelOf;
      Paste(g, localX, localY, width, height, g.x + localX, g.y + localY);
    }

    /** The loop body of `graphics_redraw_region`: the child's share of the region. */
    method RedrawPart(child: Graphic, left: nat, top: nat, right: nat, bottom: nat)
      requires Valid() && Filled(child)
      modifies fb
      ensures forall x, y :: 0 <= x < pitch && 0 <= y < h ==>
        Look(fb[..], pitch, x, y) ==
        if x < w && InRect(left, top, right, bottom, x, y)
        then Clipped(child, x, y, Look(old(fb[..]), pitch, x, y)) else Look(old(fb[..]), pitch, x, y)
      decreases child, 1
    {
      hide Look, PaintOwn;
      var l, t := Max(child.x, left), Max(child.y, top);
      var r, b := Min(child.x + child.w, right), Min(child.y + child.h, bottom);
      if r > l && b > t {
        RedrawRegion(child, l - child.x, t - child.y, r - l, b - t);
      }
    }
  }

  /** The rectangle relative to `g`, cut to `g`, in absolute coordinates. */
  predicate InRegion(g: Graphic, localX: nat, localY: nat, width: nat, height: nat, px: int, py: int) {
    InRect(g.x + localX, g.y + localY, g.x + Min(localX + width, g.w), g.y + Min(localY + height, g.h), px, py)
  }

  lemma ClippedInside(g: Graphic, px: int, py: int)
    requires Filled(g) && Covers(g, px, py)
    ensures forall p :: Clipped(g, px, py, p) == ClippedList(g.children, px, py, PaintOwn(g, px, py, p))
  {
  }

  /**
   Region redraw refines full redraw: wherever the root covers the point, repainting only
   the region gives the pixel a full redraw would give, if nothing below the root sticks
   out of its parent.
   */
  lemma RegionIsFullRedraw(root: Graphic, px: int, py: int, under: Pixel)
    requires Filled(root) && ContainedBelow(root) && Covers(root, px, py)
    ensures Clipped(root, px, py, under) == Paint(root, px, py, under)
  {
    ClippedListIsPaint(root.children, px, py, PaintOwn(root, px, py, under));
  }

  /** A grandchild sticking out of its parent is painted by a full redraw only. */
  lemma StickingOutDiffers()
    ensures var red := Pixel(0, 0, 255, 0);
            var inner := Graphic(2, 1, 0, 1, 0, 1, 1, [red], BLACK, 1, []);
            var middle := Graphic(1, 0, 0, 0, 0, 1, 1, [BLACK], BLACK, 1, [inner]);
            var root := Graphic(0, 0, 0, 0, 0, 2, 1, [BLACK, BLACK], BLACK, 0, [middle]);
            && Filled(root) && !ContainedBelow(root)
            && Paint(root, 1, 0, BLACK) == red && Clipped(root, 1, 0, BLACK) == BLACK
  {
    var red := Pixel(0, 0, 255, 0);
    var inner := Graphic(2, 1, 0, 1, 0, 1, 1, [red], BLACK, 1, []);
    var middle := Graphic(1, 0, 0, 0, 0, 1, 1, [BLACK], BLACK, 1, [inner]);
    var root := Graphic(0, 0, 0, 0, 0, 2, 1, [BLACK, BLACK], BLACK, 0, [middle]);
    assert inner in middle.children && middle in root.children;
    assert PixelOf(inner, 0, 0) == red;
    assert middle.children[..0] == [] && root.children[..0] == [];
    assert PaintList(middle.children, 1, 0, BLACK) == Paint(inner, 1, 0, BLACK) == red;
    assert PixelOf(root, 1, 0) == BLACK;
    assert PaintList(root.children, 1, 0, BLACK) == Paint(middle, 1, 0, BLACK);
    assert ClippedList(root.children, 1, 0, BLACK) == Clipped(middle, 1, 0, BLACK);
  }

  /** An opaque graphic hides what was under it. */
  lemma OpaqueHides(g: Graphic, px: int, py: int, p: Pixel, q: Pixel)
    requires Filled(g) && Opaque(g) && Covers(g, px, py)
    ensures Paint(g, px, py, p) == Paint(g, px, py, q)
  {
  }

  lemma {:induction false} PaintListSplits(a: seq<Graphic>, b: seq<Graphic>, px: int, py: int, under: Pixel)
    requires forall c :: c in a + b ==> Filled(c)
    ensures (forall c :: c in a ==> Filled(c)) && (forall c :: c in b ==> Filled(c))
    ensures PaintList(a + b, px, py, under) == PaintList(b, px, py, PaintList(a, px, py, under))
  {
    assert forall c :: c in a ==> c in a + b;
    assert forall c :: c in b ==> c in a + b;
    if b == [] {
      assert a + b == a;
    } else {
      assert (a + b)[..|a + b| - 1] == a + b[..|b| - 1];
      PaintListSplits(a, b[..|b| - 1], px, py, under);
    }
  }

  // ------------------------------------------------------------- hit testing

  predicate Ignored(g: Graphic, ignored: Option<nat>) { ignored == Some(g.id) }

  /** The graphics in the order they are painted, without the ignored branch. */
  function Order(g: Graphic, ignored: Option<nat>): seq<Graphic> {
    if Ignored(g, ignored) then [] else [g] + OrderList(g.children, ignored)
  }

  function OrderList(gs: seq<Graphic>, ignored: Option<nat>): seq<Graphic> {
    if gs == [] then [] else OrderList(gs[..|gs| - 1], ignored) + Order(gs[|gs| - 1], ignored)
  }

  /** The graphic painted last among those that cover the point. */
  function LastCovering(s: seq<Graphic>, px: int, py: int): Option<Graphic> {
    if s == [] then None
    else if Covers(s[|s| - 1], px, py) then Some(s[|s| - 1])
    else LastCovering(s[..|s| - 1], px, py)
  }

  /** `graphics_get_child_at_position`. */
  function Hit(g: Graphic, px: int, py: int, ignored: Option<nat>, topFirst: bool): Option<Graphic>
    decreases g, 0
  {
    if Ignored(g, ignored) then None
    else
      var below := if topFirst then HitTop(g.children, px, py, ignored) else HitBottom(g.children, px, py, ignored);
      if below.Some? then below
      else if Covers(g, px, py) then Some(g)
      else None
  }

  function HitTop(gs: seq<Graphic>, px: int, py: int, ignored: Option<nat>): Option<Graphic>
    decreases gs, 1
  {
    if gs == [] then None
    else
      var child := gs[|gs| - 1];
      if Ignored(child, ignored) || !Covers(child, px, py) then HitTop(gs[..|gs| - 1], px, py, ignored)
      else
        var r := Hit(child, px, py, ignored, true);
        if r.Some? then r else Some(child)
  }

  function HitBottom(gs: seq<Graphic>, px: int, py: int, ignored: Option<nat>): Option<Graphic>
    decreases gs, 1
  {
    if gs == [] then None
    else
      var child := gs[0];
      if Ignored(child, ignored) || !Covers(child, px, py) then HitBottom(gs[1..], px, py, ignored)
      else
        var r := Hit(child, px, py, ignored, false);
        if r.Some? then r else Some(child)
  }

  lemma {:induction false} LastCoveringConcat(a: seq<Graphic>, b: seq<Graphic>, px: int, py: int)
    ensures LastCovering(a + b, px, py) ==
            if LastCovering(b, px, py).Some? then LastCovering(b, px, py) else LastCovering(a, px, py)
  {
    if b == [] {
      assert a + b == a;
    } else {
      assert (a + b)[..|a + b| - 1] == a + b[..|b| - 1];
      LastCoveringConcat(a, b[..|b| - 1], px, py);
    }
  }

  lemma {:induction false} NoneCoversOutside(g: Graphic, px: int, py: int, ignored: Option<nat>)
    requires Contained(g) && !Covers(g, px, py)
    ensures LastCovering(Order(g, ignored), px, py) == None
  {
    if !Ignored(g, ignored) {
      NoneCoversOutsideList(g.children, px, py, ignored);
      LastCoveringConcat([g], OrderList(g.children, ignored), px, py);
    }
  }

  lemma {:induction false} NoneCoversOutsideList(gs: seq<Graphic>, px: int, py: int, ignored: Option<nat>)
    requires forall c :: c in gs ==> Contained(c) && !Covers(c, px, py)
    ensures LastCovering(OrderList(gs, ignored), px, py) == None
  {
    if gs != [] {
      var last := gs[|gs| - 1];
      NoneCoversOutsideList(gs[..|gs| - 1], px, py, ignored);
      NoneCoversOutside(last, px, py, ignored);
      LastCoveringConcat(OrderList(gs[..|gs| - 1], ignored), Order(last, ignored), px, py);
    }
  }

  /** Top-first hit testing answers the graphic painted last of those covering the point. */
  lemma {:induction false} HitIsPaintedLast(g: Graphic, px: int, py: int, ignored: Option<nat>)
    requires ContainedBelow(g)
    ensures Hit(g, px, py, ignored, true) == LastCovering(Order(g, ignored), px, py)
    decreases g, 0
  {
    if !Ignored(g, ignored) {
      HitTopIsPaintedLast(g.children, px, py, ignored);
      LastCoveringConcat([g], OrderList(g.children, ignored), px, py);
    }
  }

  lemma {:induction false} HitTopIsPaintedLast(gs: seq<Graphic>, px: int, py: int, ignored: Option<nat>)
    requires forall c :: c in gs ==> Contained(c)
    ensures HitTop(gs, px, py, ignored) == LastCovering(OrderList(gs, ignored), px, py)
    decreases gs, 1
  {
    if gs != [] {
      var last := gs[|gs| - 1];
      LastCoveringConcat(OrderList(gs[..|gs| - 1], ignored), Order(last, ignored), px, py);
      HitTopIsPaintedLast(gs[..|gs| - 1], px, py, ignored);
      if !Covers(last, px, py) {
        NoneCoversOutside(last, px, py, ignored);
      } else {
        HitIsPaintedLast(last, px, py, ignored);
      }
    }
  }

  ghost predicate NoneCovers(s: seq<Graphic>, px: int, py: int) { forall o :: o in s ==> !Covers(o, px, py) }

  ghost predicate Finds(r: Option<Graphic>, s: seq<Graphic>, px: int, py: int) {
    r.Some? ==> r.value in s && Covers(r.value, px, py)
  }

  /**
   Whichever child it begins with, the search finds one of the graphics at the point, and none
   only if there is none.
   */
  lemma {:induction false} HitFindsExactly(g: Graphic, px: int, py: int, ignored: Option<nat>, topFirst: bool)
    ensures Finds(Hit(g, px, py, ignored, topFirst), Order(g, ignored), px, py)
    ensures ContainedBelow(g) ==> (Hit(g, px, py, ignored, topFirst) == None <==> NoneCovers(Order(g, ignored), px, py))
    decreases g, 0
  {
    if topFirst {
      HitTopFinds(g.children, px, py, ignored);
      if ContainedBelow(g) {
        HitIsPaintedLast(g, px, py, ignored);
        LastCoveringExactly(Order(g, ignored), px, py);
      }
    } else {
      HitBottomFinds(g.children, px, py, ignored);
    }
  }

  lemma {:induction false} LastCoveringExactly(s: seq<Graphic>, px: int, py: int)
    ensures LastCovering(s, px, py) == None <==> NoneCovers(s, px, py)
  {
    if s != [] {
      LastCoveringExactly(s[..|s| - 1], px, py);
      assert s == s[..|s| - 1] + [s[|s| - 1]];
    }
  }

  lemma {:induction false} HitTopFinds(gs: seq<Graphic>, px: int, py: int, ignored: Option<nat>)
    ensures Finds(HitTop(gs, px, py, ignored), OrderList(gs, ignored), px, py)
    decreases gs, 1
  {
    if gs != [] {
      HitTopFinds(gs[..|gs| - 1], px, py, ignored);
      HitFindsExactly(gs[|gs| - 1], px, py, ignored, true);
      OrderBegins(gs[|gs| - 1], ignored);
    }
  }

  lemma {:induction false} HitBottomFinds(gs: seq<Graphic>, px: int, py: int, ignored: Option<nat>)
    ensures Finds(HitBottom(gs, px, py, ignored), OrderList(gs, ignored), px, py)
    ensures (forall c :: c in gs ==> Contained(c)) ==>
              (HitBottom(gs, px, py, ignored) == None <==> NoneCovers(OrderList(gs, ignored), px, py))
    decreases gs, 1
  {
    if gs != [] {
      var child := gs[0];
      HitBottomFinds(gs[1..], px, py, ignored);
      HitFindsExactly(child, px, py, ignored, false);
      OrderBegins(child, ignored);
      OrderListFirst(gs, ignored);
      if Contained(child) && !Covers(child, px, py) {
        NoneCoversOutside(child, px, py, ignored);
        LastCoveringExactly(Order(child, ignored), px, py);
      }
    }
  }

  lemma OrderBegins(g: Graphic, ignored: Option<nat>)
    ensures !Ignored(g, ignored) ==> g in Order(g, ignored)
  {
  }

  lemma {:induction false} OrderListFirst(gs: seq<Graphic>, ignored: Option<nat>)
    requires gs != []
    ensures OrderList(gs, ignored) == Order(gs[0], ignored) + OrderList(gs[1..], ignored)
  {
    hide Order, OrderList;
    var before, last := gs[..|gs| - 1], gs[|gs| - 1];
    OrderListLast(gs, ignored);
    NoneInOrder(ignored);
    if before != [] {
      OrderListFirst(before, ignored);
      OrderListLast(gs[1..], ignored);
      assert gs[1..][..|gs[1..]| - 1] == before[1..];
      assert Order(gs[0], ignored) + OrderList(before[1..], ignored) + Order(last, ignored)
          == Order(gs[0], ignored) + (OrderList(before[1..], ignored) + Order(last, ignored));
    }
  }

  lemma OrderListLast(gs: seq<Graphic>, ignored: Option<nat>)
    requires gs != []
    ensures OrderList(gs, ignored) == OrderList(gs[..|gs| - 1], ignored) + Order(gs[|gs| - 1], ignored)
  {
  }

  lemma NoneInOrder(ignored: Option<nat>)
    ensures OrderList([], ignored) == []
  {
  }

  /** What a full redraw shows is what painting the graphics of `Order` in turn shows. */
  function PaintAll(s: seq<Graphic>, px: int, py: int, under: Pixel): Pixel
    requires forall g :: g in s ==> |g.pixels| == g.w * g.h
  {
    if s == [] then under else PaintOwn(s[|s| - 1], px, py, PaintAll(s[..|s| - 1], px, py, under))
  }

  lemma {:induction false} PaintAllSplits(a: seq<Graphic>, b: seq<Graphic>, px: int, py: int, under: Pixel)
    requires forall g :: g in a + b ==> |g.pixels| == g.w * g.h
    ensures (forall g :: g in a ==> |g.pixels| == g.w * g.h) && (forall g :: g in b ==> |g.pixels| == g.w * g.h)
    ensures PaintAll(a + b, px, py, under) == PaintAll(b, px, py, PaintAll(a, px, py, under))
  {
    assert forall g :: g in a ==> g in a + b;
    assert forall g :: g in b ==> g in a + b;
    if b == [] {
      assert a + b == a;
    } else {
      assert (a + b)[..|a + b| - 1] == a + b[..|b| - 1];
      PaintAllSplits(a, b[..|b| - 1], px, py, under);
    }
  }

  lemma {:induction false} PaintFollowsOrder(g: Graphic, px: int, py: int, under: Pixel)
    requires Filled(g)
    ensures forall o :: o in Order(g, None) ==> |o.pixels| == o.w * o.h
    ensures Paint(g, px, py, under) == PaintAll(Order(g, None), px, py, under)
    decreases g, 0
  {
    PaintListFollowsOrder(g.children, px, py, PaintOwn(g, px, py, under));
    PaintAllSplits([g], OrderList(g.children, None), px, py, under);
    assert PaintAll([g], px, py, under) == PaintOwn(g, px, py, under) by { assert [g][..0] == []; }
  }

  lemma {:induction false} PaintListFollowsOrder(gs: seq<Graphic>, px: int, py: int, under: Pixel)
    requires forall c :: c in gs ==> Filled(c)
    ensures forall o :: o in OrderList(gs, None) ==> |o.pixels| == o.w * o.h
    ensures PaintList(gs, px, py, under) == PaintAll(OrderList(gs, None), px, py, under)
    decreases gs, 1
  {
    if gs != [] {
      var last, before := gs[|gs| - 1], gs[..|gs| - 1];
      PaintListFollowsOrder(before, px, py, under);
      PaintFollowsOrder(last, px, py, PaintList(before, px, py, under));
      PaintAllSplits(OrderList(before, None), Order(last, None), px, py, under);
    }
  }

  // ------------------------------------- when a region is redrawn as everything is

  /** The graphic itself paints the point: it covers it, with a pixel that is not its key. */
  predicate OwnShows(g: Graphic, px: int, py: int)
    requires |g.pixels| == g.w * g.h
  {
    Covers(g, px, py) && (Opaque(g) || PixelOf(g, px - g.x, py - g.y) != g.key)
  }

  /** The one of them that is seen at the point once they have been painted in turn. */
  function LastShown(s: seq<Graphic>, px: int, py: int): (r: Option<Graphic>)
    requires forall g :: g in s ==> |g.pixels| == g.w * g.h
    ensures r.Some? ==> r.value in s && OwnShows(r.value, px, py)
    ensures r == None ==> forall g :: g in s ==> !OwnShows(g, px, py)
  {
    if s == [] then None
    else if OwnShows(s[|s| - 1], px, py) then Some(s[|s| - 1])
    else
      assert s == s[..|s| - 1] + [s[|s| - 1]];
      LastShown(s[..|s| - 1], px, py)
  }

  function Seen(g: Graphic, px: int, py: int): Pixel
    requires |g.pixels| == g.w * g.h && Covers(g, px, py)
  {
    PixelOf(g, px - g.x, py - g.y)
  }

  lemma {:induction false} LastShownIsSeen(s: seq<Graphic>, px: int, py: int, under: Pixel)
    requires forall g :: g in s ==> |g.pixels| == g.w * g.h
    ensures var top := LastShown(s, px, py);
            PaintAll(s, px, py, under) == if top == None then under else Seen(top.value, px, py)
  {
    hide PixelOf;
    if s != [] { LastShownIsSeen(s[..|s| - 1], px, py, under); }
  }

  /** The graphics that cover the point with all that they lie on, in the order they are painted. */
  function Within(g: Graphic, px: int, py: int): seq<Graphic> {
    if Covers(g, px, py) then [g] + WithinList(g.children, px, py) else []
  }

  function WithinList(gs: seq<Graphic>, px: int, py: int): seq<Graphic> {
    if gs == [] then [] else WithinList(gs[..|gs| - 1], px, py) + Within(gs[|gs| - 1], px, py)
  }

  lemma {:induction false} WithinIsInOrder(g: Graphic, px: int, py: int)
    ensures forall o :: o in Within(g, px, py) ==> o in Order(g, None)
    decreases g, 0
  {
    WithinListIsInOrder(g.children, px, py);
  }

  lemma {:induction false} WithinListIsInOrder(gs: seq<Graphic>, px: int, py: int)
    ensures forall o :: o in WithinList(gs, px, py) ==> o in OrderList(gs, None)
    decreases gs, 1
  {
    if gs != [] {
      WithinListIsInOrder(gs[..|gs| - 1], px, py);
      WithinIsInOrder(gs[|gs| - 1], px, py);
    }
  }

  /** A region's redraw paints just these. */
  lemma {:induction false} ClippedFollowsWithin(g: Graphic, px: int, py: int, under: Pixel)
    requires Filled(g)
    ensures forall o :: o in Within(g, px, py) ==> |o.pixels| == o.w * o.h
    ensures Clipped(g, px, py, under) == PaintAll(Within(g, px, py), px, py, under)
    decreases g, 0
  {
    if Covers(g, px, py) {
      ClippedListFollowsWithin(g.children, px, py, PaintOwn(g, px, py, under));
      PaintAllSplits([g], WithinList(g.children, px, py), px, py, under);
      assert PaintAll([g], px, py, under) == PaintOwn(g, px, py, under) by { assert [g][..0] == []; }
    }
  }

  lemma {:induction false} ClippedListFollowsWithin(gs: seq<Graphic>, px: int, py: int, under: Pixel)
    requires forall c :: c in gs ==> Filled(c)
    ensures forall o :: o in WithinList(gs, px, py) ==> |o.pixels| == o.w * o.h
    ensures ClippedList(gs, px, py, under) == PaintAll(WithinList(gs, px, py), px, py, under)
    decreases gs, 1
  {
    if gs != [] {
      var last, before := gs[|gs| - 1], gs[..|gs| - 1];
      ClippedListFollowsWithin(before, px, py, under);
      ClippedFollowsWithin(last, px, py, ClippedList(before, px, py, under));
      PaintAllSplits(WithinList(before, px, py), Within(last, px, py), px, py, under);
    }
  }

  lemma OrderIsFilled(g: Graphic)
    requires Filled(g)
    ensures forall o :: o in Order(g, None) ==> |o.pixels| == o.w * o.h
  {
    PaintFollowsOrder(g, 0, 0, BLACK);
  }

  /** What is seen at the point is not cut off by what it lies on, or another of its colour is seen without it. */
  predicate SeenWithin(root: Graphic, px: int, py: int)
    requires Filled(root)
  {
    OrderIsFilled(root);
    WithinIsInOrder(root, px, py);
    var top, inner := LastShown(Order(root, None), px, py), LastShown(Within(root, px, py), px, py);
    top == None || (inner.Some? && Seen(inner.value, px, py) == Seen(top.value, px, py))
  }

  predicate RedrawsAlike(root: Graphic, px: int, py: int, under: Pixel)
    requires Filled(root)
  {
    Clipped(root, px, py, under) == Paint(root, px, py, under)
  }

  /**
   Redrawing a region gives a pixel what a full redraw gives, whatever was there, exactly if
   the graphic seen there lies at that point on all that it should lie on, or what would be
   seen without those that stick out has its colour.
   */
  lemma RegionAgreesExactly(root: Graphic, px: int, py: int)
    requires Filled(root)
    ensures (forall under :: RedrawsAlike(root, px, py, under)) <==> SeenWithin(root, px, py)
  {
    hide Seen, Clipped, Paint, Order, Within;
    OrderIsFilled(root);
    WithinIsInOrder(root, px, py);
    var top, inner := LastShown(Order(root, None), px, py), LastShown(Within(root, px, py), px, py);
    forall under
      ensures Clipped(root, px, py, under) == if inner == None then under else Seen(inner.value, px, py)
      ensures Paint(root, px, py, under) == if top == None then under else Seen(top.value, px, py)
    {
      ClippedFollowsWithin(root, px, py, under);
      PaintFollowsOrder(root, px, py, under);
      LastShownIsSeen(Within(root, px, py), px, py, under);
      LastShownIsSeen(Order(root, None), px, py, under);
    }
    if inner == None && top.Some? {
      var under := if Seen(top.value, px, py) == BLACK then Pixel(1, 0, 0, 0) else BLACK;
      assert !RedrawsAlike(root, px, py, under);
    } else if inner.Some? {
      assert inner.value in Order(root, None) && top.Some?;
      assert RedrawsAlike(root, px, py, BLACK) <==> SeenWithin(root, px, py);
    }
  }

  /** `graphics_is_in_ignored_branch`, for a graphic below those of `above`, its parent first. */
  method InIgnoredBranch(g: Graphic, above: seq<nat>, ignored: Option<nat>) returns (r: bool)
    ensures r == (Ignored(g, ignored) || Below(above, ignored))
  {
    if ignored == None {
      return false;
    }
    var branch := [g.id] + above;
    for i := 0 to |branch|
      invariant ignored.value !in branch[..i]
    {
      if branch[i] == ignored.value {
        return true;
      }
    }
    assert branch[..|branch|] == branch;
    return false;
  }

  predicate Below(above: seq<nat>, ignored: Option<nat>) { ignored.Some? && ignored.value in above }

  /** `graphics_get_child_at_position`, with its two loops, from a graphic below those of `above`. */
  method ChildAt(g: Graphic, above: seq<nat>, px: int, py: int, ignored: Option<nat>, topFirst: bool)
      returns (r: Option<Graphic>)
    ensures r == if Below(above, ignored) then None else Hit(g, px, py, ignored, topFirst)
    decreases g
  {
    var skip := InIgnoredBranch(g, above, ignored);
    if skip {
      return None;
    }
    if topFirst {
      assert g.children[..|g.children|] == g.children;
      for i := |g.children| downto 0
        invariant HitTop(g.children, px, py, ignored) == HitTop(g.children[..i], px, py, ignored)
      {
        assert g.children[..i + 1][..i] == g.children[..i];
        var child := g.children[i];
        skip := InIgnoredBranch(child, [g.id] + above, ignored);
        if skip {
          continue;
        }
        if Covers(child, px, py) {
          r := ChildAt(child, [g.id] + above, px, py, ignored, topFirst);
          if r != None {
            return;
          }
          return Some(child);
        }
      }
    } else {
      for i := 0 to |g.children|
        invariant HitBottom(g.children, px, py, ignored) == HitBottom(g.children[i..], px, py, ignored)
      {
        var child := g.children[i];
        skip := InIgnoredBranch(child, [g.id] + above, ignored);
        if skip {
          continue;
        }
        if Covers(child, px, py) {
          r := ChildAt(child, [g.id] + above, px, py, ignored, topFirst);
          if r != None {
            return;
          }
          return Some(child);
        }
      }
    }
    if Covers(g, px, py) {
      return Some(g);
    }
    return None;
  }
}
