/**
 Moving and raising windows (graphics/window.c).  A window's root graphic is a child of
 the screen's graphic; moving it repaints only the strips it has left, then the window.
 */
module Window {
  import opened Basics
  import opened Graphics
  import V = Vector

  function ZIndex(): Graphic -> int { (g: Graphic) => g.z }

  /** `graphics_info_recalculate` below a graphic that has been put at (x, y). */
  function Recalculated(g: Graphic, x: nat, y: nat): (r: Graphic)
    ensures r == g.(x := x, y := y, children := r.children) && |r.children| == |g.children|
  {
    g.(x := x, y := y, children := RecalculatedList(g.children, x, y))
  }

  function RecalculatedList(gs: seq<Graphic>, x: nat, y: nat): (r: seq<Graphic>)
    ensures |r| == |gs|
    ensures forall i :: 0 <= i < |gs| ==> r[i] == Recalculated(gs[i], x + gs[i].relX, y + gs[i].relY)
  {
    if gs == [] then []
    else [Recalculated(gs[0], x + gs[0].relX, y + gs[0].relY)] + RecalculatedList(gs[1..], x, y)
  }

  /** Absolute positions are sums of relative ones along the ancestors. */
  ghost predicate Placed(g: Graphic, parentX: nat, parentY: nat) {
    && g.x == parentX + g.relX && g.y == parentY + g.relY
    && forall c :: c in g.children ==> Placed(c, g.x, g.y)
  }

  /** Every descendant lies inside its parent by its relative position. */
  ghost predicate Fits(g: Graphic) {
    forall c :: c in g.children ==> c.relX + c.w <= g.w && c.relY + c.h <= g.h && Fits(c)
  }

  lemma {:induction false} RecalculatedIsPlaced(g: Graphic, parentX: nat, parentY: nat)
    ensures Placed(Recalculated(g, parentX + g.relX, parentY + g.relY), parentX, parentY)
  {
    hide Recalculated, RecalculatedList;
    var r := Recalculated(g, parentX + g.relX, parentY + g.relY);
    forall c | c in r.children ensures Placed(c, r.x, r.y) {
      var i :| 0 <= i < |r.children| && r.children[i] == c;
      RecalculatedChild(g, r.x, r.y, i);
      RecalculatedIsPlaced(g.children[i], r.x, r.y);
    }
  }

  lemma {:induction false} RecalculatedIsFilled(g: Graphic, x: nat, y: nat)
    requires Filled(g)
    ensures Filled(Recalculated(g, x, y))
  {
    hide Recalculated, RecalculatedList;
    var r := Recalculated(g, x, y);
    forall c | c in r.children ensures Filled(c) {
      var i :| 0 <= i < |r.children| && r.children[i] == c;
      RecalculatedChild(g, x, y, i);
      RecalculatedIsFilled(g.children[i], x + g.children[i].relX, y + g.children[i].relY);
    }
  }

  /** Wherever it is put, a graphic whose descendants fit contains them. */
  lemma {:induction false} RecalculatedIsContained(g: Graphic, x: nat, y: nat)
    requires Fits(g)
    ensures Contained(Recalculated(g, x, y))
    decreases g
  {
    hide Recalculated, RecalculatedList;
    var r := Recalculated(g, x, y);
    forall c | c in r.children
      ensures x <= c.x && c.x + c.w <= x + g.w && y <= c.y && c.y + c.h <= y + g.h && Contained(c)
    {
      var i :| 0 <= i < |r.children| && r.children[i] == c;
      ChildIsContained(g, x, y, i);
    }
  }

  lemma {:induction false} ChildIsContained(g: Graphic, x: nat, y: nat, i: nat)
    requires Fits(g) && i < |g.children|
    ensures var c := Recalculated(g, x, y).children[i];
            x <= c.x && c.x + c.w <= x + g.w && y <= c.y && c.y + c.h <= y + g.h && Contained(c)
    decreases g, 0
  {
    hide RecalculatedList, Recalculated, Contained;
    RecalculatedChild(g, x, y, i);
    var child := g.children[i];
    RecalculatedIsContained(child, x + child.relX, y + child.relY);
  }

  lemma RecalculatedChild(g: Graphic, x: nat, y: nat, i: nat)
    requires i < |g.children|
    ensures var child, c := g.children[i], Recalculated(g, x, y).children[i];
            && child in g.children && c == Recalculated(child, x + child.relX, y + child.relY)
            && c.x == x + child.relX && c.y == y + child.relY && c.w == child.w && c.h == child.h
  {
    hide RecalculatedList;
    var gs := RecalculatedList(g.children, x, y);
    assert Recalculated(g, x, y).children == gs;
    hide Recalculated;
    assert gs[i] == Recalculated(g.children[i], x + g.children[i].relX, y + g.children[i].relY);
  }

  // -------------------------------------------------------------- the strips

  /** The rectangles `window_position_set` has the screen repaint, as (x, y, width, height). */
  datatype Strips = Strips(x1: nat, y1: nat, w1: nat, h1: nat, x2: nat, y2: nat, w2: nat, h2: nat)

  predicate Inside(x: nat, y: nat, w: nat, h: nat, px: int, py: int) { InRect(x, y, x + w, y + h, px, py) }

  predicate InStrips(s: Strips, px: int, py: int) {
    Inside(s.x1, s.y1, s.w1, s.h1, px, py) || Inside(s.x2, s.y2, s.w2, s.h2, px, py)
  }

  /** For a window of w by h pixels going from (oldX, oldY) to (newX, newY). */
  function StripsFor(oldX: nat, oldY: nat, newX: nat, newY: nat, w: nat, h: nat): Strips {
    var gapX, gapY := oldX - newX, oldY - newY;
    var width := if gapX >= 0 then gapX else -gapX;
    var height := if gapY >= 0 then gapY else -gapY;
    if width > w || height > h then Strips(oldX, oldY, w, h, oldX, oldY, 0, 0)
    else
      Strips(if gapX >= 0 then newX + w else newX + gapX, oldY, width, h,
             oldX, if gapY >= 0 then newY + h else newY + gapY, w, height)
  }

  /** The strips are exactly what the window has left: all of its old place outside its new one. */
  lemma StripsCoverVacated(oldX: nat, oldY: nat, newX: nat, newY: nat, w: nat, h: nat, px: int, py: int)
    ensures Inside(oldX, oldY, w, h, px, py) && !Inside(newX, newY, w, h, px, py) ==>
              InStrips(StripsFor(oldX, oldY, newX, newY, w, h), px, py)
    ensures InStrips(StripsFor(oldX, oldY, newX, newY, w, h), px, py) ==>
              Inside(oldX, oldY, w, h, px, py) && !Inside(newX, newY, w, h, px, py)
  {
  }

  // ----------------------------------------------------------------- moving

  /** The pixel after the strips are repainted from the scene `root`. */
  function StripsShown(root: Graphic, s: Strips, px: int, py: int, before: Pixel): Pixel
    requires Filled(root)
  {
    if InStrips(s, px, py) then Clipped(root, px, py, before) else before
  }

  /** The pixel that the move leaves at (px, py): strips from the new scene, then the window. */
  function MovedPixel(root: Graphic, win: Graphic, strips: Strips, px: int, py: int, before: Pixel): Pixel
    requires Filled(root) && Filled(win)
  {
    Paint(win, px, py, StripsShown(root, strips, px, py, before))
  }

  /** The scene's pixel, whatever the framebuffer held. */
  function Composite(root: Graphic, px: int, py: int): Pixel
    requires Filled(root)
  {
    Paint(root, px, py, BLACK)
  }

  /** The screen's graphic covers the whole screen and hides what was there. */
  ghost predicate Backdrop(root: Graphic, w: nat, h: nat) {
    Filled(root) && Opaque(root) && root.x == root.y == 0 && root.w == w && root.h == h && ContainedBelow(root)
  }

  /** The scene with child `i` moved to (x, y), raised to `z` and hence painted last. */
  function Raised(root: Graphic, i: nat, x: nat, y: nat, z: int): Graphic
    requires i < |root.children|
  {
    root.(children := root.children[..i] + root.children[i + 1..] + [MovedWindow(root.children[i], x, y, z)])
  }

  function MovedWindow(g: Graphic, x: nat, y: nat, z: int): Graphic {
    Recalculated(g.(relX := x, relY := y, z := z), x, y)
  }

  // ------------------------------------------------------------------ showing

  /** Some graphic of the tree paints the point. */
  predicate Shows(g: Graphic, px: int, py: int)
    requires Filled(g)
  {
    OwnShows(g, px, py) || ShowsList(g.children, px, py)
  }

  predicate ShowsList(gs: seq<Graphic>, px: int, py: int)
    requires forall c :: c in gs ==> Filled(c)
  {
    gs != [] && (ShowsList(gs[..|gs| - 1], px, py) || Shows(gs[|gs| - 1], px, py))
  }

  /** Where it shows, what was there does not matter; elsewhere it stays. */
  lemma {:induction false} ShowsDecides(g: Graphic, px: int, py: int, p: Pixel, q: Pixel)
    requires Filled(g)
    ensures if Shows(g, px, py) then Paint(g, px, py, p) == Paint(g, px, py, q) else Paint(g, px, py, p) == p
  {
    ShowsListDecides(g.children, px, py, PaintOwn(g, px, py, p), PaintOwn(g, px, py, q));
  }

  lemma {:induction false} ShowsListDecides(gs: seq<Graphic>, px: int, py: int, p: Pixel, q: Pixel)
    requires forall c :: c in gs ==> Filled(c)
    ensures p == q ==> PaintList(gs, px, py, p) == PaintList(gs, px, py, q)
    ensures if ShowsList(gs, px, py) then PaintList(gs, px, py, p) == PaintList(gs, px, py, q)
            else PaintList(gs, px, py, p) == p
  {
    if gs != [] {
      var last, before := gs[|gs| - 1], gs[..|gs| - 1];
      ShowsListDecides(before, px, py, p, q);
      ShowsDecides(last, px, py, PaintList(before, px, py, p), PaintList(before, px, py, q));
    }
  }

  lemma {:induction false} OutsideShowsNothing(g: Graphic, px: int, py: int)
    requires Filled(g) && Contained(g) && !Covers(g, px, py)
    ensures !Shows(g, px, py)
  {
    OutsideListShowsNothing(g.children, px, py);
  }

  lemma {:induction false} OutsideListShowsNothing(gs: seq<Graphic>, px: int, py: int)
    requires forall c :: c in gs ==> Filled(c) && Contained(c) && !Covers(c, px, py)
    ensures !ShowsList(gs, px, py)
  {
    if gs != [] {
      OutsideListShowsNothing(gs[..|gs| - 1], px, py);
      OutsideShowsNothing(gs[|gs| - 1], px, py);
    }
  }

  /** A child that does not show may as well not be there. */
  lemma PaintWithout(root: Graphic, i: nat, px: int, py: int, under: Pixel)
    requires i < |root.children| && Filled(root)
    requires Filled(root.children[i]) && !Shows(root.children[i], px, py)
    ensures (forall c :: c in root.children[..i] + root.children[i + 1..] ==> Filled(c))
    ensures Paint(root, px, py, under) ==
            PaintList(root.children[..i] + root.children[i + 1..], px, py, PaintOwn(root, px, py, under))
  {
    hide Shows, PaintOwn;
    var a, win, b := root.children[..i], root.children[i], root.children[i + 1..];
    assert root.children == a + ([win] + b);
    var p := PaintOwn(root, px, py, under);
    PaintListSplits(a, [win] + b, px, py, p);
    PaintListSplits([win], b, px, py, PaintList(a, px, py, p));
    PaintListSplits(a, b, px, py, p);
    assert [win][..0] == [];
    ShowsDecides(win, px, py, PaintList(a, px, py, p), p);
  }

  lemma OwnIgnoresChildren(g: Graphic, children: seq<Graphic>, px: int, py: int, under: Pixel)
    requires |g.pixels| == g.w * g.h
    ensures PaintOwn(g.(children := children), px, py, under) == PaintOwn(g, px, py, under)
  {
  }

  lemma RaisedScene(root: Graphic, i: nat, x: nat, y: nat, z: int, px: int, py: int, under: Pixel)
    requires i < |root.children| && Filled(root) && Fits(root.children[i])
    ensures (forall c :: c in root.children[..i] + root.children[i + 1..] ==> Filled(c))
    ensures Filled(MovedWindow(root.children[i], x, y, z)) && Contained(MovedWindow(root.children[i], x, y, z))
    ensures Filled(Raised(root, i, x, y, z))
    ensures Paint(Raised(root, i, x, y, z), px, py, under) ==
            Paint(MovedWindow(root.children[i], x, y, z), px, py,
                  PaintList(root.children[..i] + root.children[i + 1..], px, py, PaintOwn(root, px, py, under)))
  {
    hide Recalculated, RecalculatedList, Contained, PaintOwn;
    assert root.children[i] in root.children;
    var g := root.children[i].(relX := x, relY := y, z := z);
    RecalculatedIsFilled(g, x, y);
    RecalculatedIsContained(g, x, y);
    var others, win := root.children[..i] + root.children[i + 1..], MovedWindow(root.children[i], x, y, z);
    assert forall c :: c in others ==> c in root.children;
    var raised := Raised(root, i, x, y, z);
    assert raised.children[..|others|] == others;
    OwnIgnoresChildren(root, raised.children, px, py, under);
  }

  /** The pixel after the move is that of the moved scene. */
  ghost predicate PixelInSync(root: Graphic, i: nat, x: nat, y: nat, z: int, px: int, py: int)
    requires Filled(root) && i < |root.children|
  {
    var win := root.children[i];
    var moved, raised := MovedWindow(win, x, y, z), Raised(root, i, x, y, z);
    && Filled(moved) && Filled(raised)
    && MovedPixel(raised, moved, StripsFor(win.x, win.y, x, y, win.w, win.h), px, py, Composite(root, px, py)) ==
       Composite(raised, px, py)
  }

  /** Where the new place covers what the old window showed, the new one shows something as well. */
  predicate KeepsShowing(win: Graphic, moved: Graphic, px: int, py: int)
    requires Filled(win) && Filled(moved)
  {
    Covers(moved, px, py) && Shows(win, px, py) ==> Shows(moved, px, py)
  }

  predicate OnScreen(w: nat, h: nat, px: int, py: int) { 0 <= px < w && 0 <= py < h }

  ghost predicate ShowsThroughout(win: Graphic, moved: Graphic, w: nat, h: nat)
    requires Filled(win) && Filled(moved)
  {
    forall px: int, py: int :: OnScreen(w, h, px, py) ==> KeepsShowing(win, moved, px, py)
  }

  lemma MoveKeepsPixel(root: Graphic, w: nat, h: nat, i: nat, x: nat, y: nat, z: int, px: int, py: int)
    requires Backdrop(root, w, h) && i < |root.children| && Filled(root.children[i]) && Fits(root.children[i])
    requires 0 <= px < w && 0 <= py < h && Filled(MovedWindow(root.children[i], x, y, z))
    requires KeepsShowing(root.children[i], MovedWindow(root.children[i], x, y, z), px, py)
    ensures PixelInSync(root, i, x, y, z, px, py)
  {
    var before, raised, win := root.children[i], Raised(root, i, x, y, z), MovedWindow(root.children[i], x, y, z);
    var others := root.children[..i] + root.children[i + 1..];
    var strips := StripsFor(before.x, before.y, x, y, before.w, before.h);
    assert Contained(before) by { assert before in root.children; }
    RaisedScene(root, i, x, y, z, px, py, BLACK);
    RaisedIsBackdrop(root, w, h, i, x, y, z);
    StripsCoverVacated(before.x, before.y, x, y, before.w, before.h, px, py);
    hide Clipped, Paint, PaintList, PaintOwn, StripsFor, Raised, MovedWindow, Shows;
    WindowRect(before, x, y, z);
    var shown := Composite(root, px, py);
    var behind := PaintList(others, px, py, PaintOwn(root, px, py, BLACK));
    if Shows(win, px, py) {
      ShowsDecides(win, px, py, StripsShown(raised, strips, px, py, shown), behind);
    } else if InStrips(strips, px, py) {
      RegionIsFullRedraw(raised, px, py, shown);
      OpaqueHides(raised, px, py, shown, BLACK);
      ShowsDecides(win, px, py, Composite(raised, px, py), behind);
    } else {
      if !Covers(before, px, py) { OutsideShowsNothing(before, px, py); }
      PaintWithout(root, i, px, py, BLACK);
      ShowsDecides(win, px, py, shown, behind);
    }
  }

  /** A screen of one colour with nothing but the window on it. */
  function Plain(win: Graphic, w: nat, h: nat, colour: Pixel): Graphic {
    Graphic(0, 0, 0, 0, 0, w, h, seq(w * h, i => colour), BLACK, 0, [win])
  }

  /** Where the condition fails, a backdrop of another colour shows it. */
  lemma TrailOnSomeBackdrop(win: Graphic, w: nat, h: nat, x: nat, y: nat, z: int, px: int, py: int)
      returns (root: Graphic)
    requires Filled(win) && Contained(win) && Fits(win) && 0 <= px < w && 0 <= py < h
    requires Filled(MovedWindow(win, x, y, z)) && !KeepsShowing(win, MovedWindow(win, x, y, z), px, py)
    ensures Backdrop(root, w, h) && root.children == [win] && !PixelInSync(root, 0, x, y, z, px, py)
  {
    hide Paint, PaintList, PaintOwn, StripsFor, MovedWindow, Shows, Clipped, Raised, Recalculated;
    var v := Paint(win, px, py, BLACK);
    var colour := if v == BLACK then Pixel(1, 0, 0, 0) else BLACK;
    root := Plain(win, w, h, colour);
    PlainIsBackdrop(win, w, h, colour, px, py);
    var moved, raised := MovedWindow(win, x, y, z), Raised(root, 0, x, y, z);
    assert root.children[..0] + root.children[1..] == [];
    hide Plain;
    RaisedScene(root, 0, x, y, z, px, py, BLACK);
    StripsCoverVacated(win.x, win.y, x, y, win.w, win.h, px, py);
    NothingPainted(px, py, colour);
    WindowRect(win, x, y, z);
    SoleChild(root, win, px, py, BLACK);
    ShowsDecides(win, px, py, colour, BLACK);
    ShowsDecides(moved, px, py, colour, colour);
    ShowsDecides(moved, px, py, v, v);
  }

  lemma NothingPainted(px: int, py: int, under: Pixel)
    ensures PaintList([], px, py, under) == under
  {
  }

  lemma PlainIsBackdrop(win: Graphic, w: nat, h: nat, colour: Pixel, px: int, py: int)
    requires Filled(win) && Contained(win) && 0 <= px < w && 0 <= py < h
    ensures Backdrop(Plain(win, w, h, colour), w, h) && PaintOwn(Plain(win, w, h, colour), px, py, BLACK) == colour
  {
    assert w * h >= 0;
    IndexInside(px, py, w, h);
  }

  /**
   A move keeps the screen in sync over every backdrop exactly if, wherever its new place
   covers what the old window showed, the window shows something at its new place as well.
   */
  lemma MoveKeepsSyncExactly(win: Graphic, w: nat, h: nat, x: nat, y: nat, z: int)
    requires Filled(win) && Contained(win) && Fits(win)
    ensures Filled(MovedWindow(win, x, y, z))
    ensures (forall root: Graphic, i: nat, px: int, py: int ::
               Backdrop(root, w, h) && i < |root.children| && root.children[i] == win && 0 <= px < w && 0 <= py < h ==>
                 PixelInSync(root, i, x, y, z, px, py)) <==>
            ShowsThroughout(win, MovedWindow(win, x, y, z), w, h)
  {
    hide PixelInSync, KeepsShowing, Contained, Fits, MovedWindow;
    MovedIsFilled(win, x, y, z);
    var moved := MovedWindow(win, x, y, z);
    if ShowsThroughout(win, moved, w, h) {
      forall root: Graphic, i: nat, px: int, py: int |
        Backdrop(root, w, h) && i < |root.children| && root.children[i] == win && 0 <= px < w && 0 <= py < h
        ensures PixelInSync(root, i, x, y, z, px, py)
      {
        MoveKeepsPixel(root, w, h, i, x, y, z, px, py);
      }
    } else {
      var px: int, py: int :| OnScreen(w, h, px, py) && !KeepsShowing(win, moved, px, py);
      var root := TrailOnSomeBackdrop(win, w, h, x, y, z, px, py);
      assert root.children[0] == win;
    }
  }

  lemma MovedIsFilled(win: Graphic, x: nat, y: nat, z: int)
    requires Filled(win)
    ensures Filled(MovedWindow(win, x, y, z))
  {
    RecalculatedIsFilled(win.(relX := x, relY := y, z := z), x, y);
  }

  /** A window whose own graphic is opaque shows wherever it is. */
  lemma OpaqueKeepsShowing(win: Graphic, x: nat, y: nat, z: int, px: int, py: int)
    requires Filled(win) && Opaque(win)
    ensures Filled(MovedWindow(win, x, y, z)) && KeepsShowing(win, MovedWindow(win, x, y, z), px, py)
  {
    MovedIsFilled(win, x, y, z);
    WindowRect(win, x, y, z);
    hide MovedWindow;
  }

  /**
   Moving an opaque window keeps the screen in sync: if the framebuffer showed the scene
   before, then after the strips and the window are repainted it shows the scene in which
   the window is at its new place and on top.
   */
  lemma MoveKeepsSync(root: Graphic, w: nat, h: nat, i: nat, x: nat, y: nat, z: int, px: int, py: int)
    requires Backdrop(root, w, h) && i < |root.children| && Fits(root.children[i]) && Opaque(root.children[i])
    requires 0 <= px < w && 0 <= py < h
    ensures PixelInSync(root, i, x, y, z, px, py)
  {
    hide Fits, KeepsShowing, PixelInSync;
    assert root.children[i] in root.children;
    OpaqueKeepsShowing(root.children[i], x, y, z, px, py);
    MoveKeepsPixel(root, w, h, i, x, y, z, px, py);
  }

  lemma WindowRect(g: Graphic, x: nat, y: nat, z: int)
    ensures var win := MovedWindow(g, x, y, z);
            && win.x == win.relX == x && win.y == win.relY == y
            && win.w == g.w && win.h == g.h && win.key == g.key && win.z == z
  {
  }

  lemma RaisedIsBackdrop(root: Graphic, w: nat, h: nat, i: nat, x: nat, y: nat, z: int)
    requires Backdrop(root, w, h) && i < |root.children| && Fits(root.children[i])
    ensures Backdrop(Raised(root, i, x, y, z), w, h)
  {
    var others := root.children[..i] + root.children[i + 1..];
    RaisedScene(root, i, x, y, z, 0, 0, BLACK);
    assert forall c :: c in others ==> c in root.children;
  }

  // ---------------------------------------------------------------- departure

  /**
   With a transparency key the move can leave a trail: where the old and the new place
   overlap, the old pixel shows through a new pixel that is not painted.
   */
  lemma TransparentWindowLeavesTrail()
    ensures var red, key := Pixel(0, 0, 255, 0), Pixel(255, 0, 255, 0);
            var win := Graphic(1, 0, 0, 0, 0, 2, 1, [key, red], key, 1, []);
            var root := Graphic(0, 0, 0, 0, 0, 3, 1, [BLACK, BLACK, BLACK], BLACK, 0, [win]);
            && Backdrop(root, 3, 1) && Fits(win) && Filled(Raised(root, 0, 1, 0, 2))
            && Filled(MovedWindow(win, 1, 0, 2))
            && Composite(Raised(root, 0, 1, 0, 2), 1, 0) == BLACK
            && MovedPixel(Raised(root, 0, 1, 0, 2), MovedWindow(win, 1, 0, 2), StripsFor(0, 0, 1, 0, 2, 1), 1, 0,
                          Composite(root, 1, 0)) == red
  {
    var red, key := Pixel(0, 0, 255, 0), Pixel(255, 0, 255, 0);
    var win := Graphic(1, 0, 0, 0, 0, 2, 1, [key, red], key, 1, []);
    var root := Graphic(0, 0, 0, 0, 0, 3, 1, [BLACK, BLACK, BLACK], BLACK, 0, [win]);
    var moved, raised := MovedWindow(win, 1, 0, 2), Raised(root, 0, 1, 0, 2);
    assert moved == win.(x := 1, relX := 1, z := 2);
    assert raised.children == [moved];
    KeyedPair(key, red);
    assert PaintOwn(root, 1, 0, BLACK) == PaintOwn(raised, 1, 0, BLACK) == BLACK
      by { assert PixelOf(root, 1, 0) == BLACK; }
    hide Paint, PaintOwn, Clipped, Recalculated, MovedWindow, Raised;
    SoleChild(root, win, 1, 0, BLACK);
    SoleChild(raised, moved, 1, 0, BLACK);
  }

  /** A pair of pixels of which the left one is transparent, at its place and one to the right of it. */
  lemma KeyedPair(key: Pixel, red: Pixel)
    requires key != BLACK && key != red
    ensures var win := Graphic(1, 0, 0, 0, 0, 2, 1, [key, red], key, 1, []);
            var moved := win.(x := 1, relX := 1, z := 2);
            && Filled(win) && Filled(moved) && Paint(win, 1, 0, BLACK) == red
            && Paint(moved, 1, 0, BLACK) == BLACK && Paint(moved, 1, 0, red) == red
  {
    var win := Graphic(1, 0, 0, 0, 0, 2, 1, [key, red], key, 1, []);
    assert PixelOf(win, 1, 0) == red && PixelOf(win.(x := 1, relX := 1, z := 2), 0, 0) == key;
  }

  lemma SoleChild(g: Graphic, child: Graphic, px: int, py: int, under: Pixel)
    requires Filled(g) && g.children == [child]
    ensures Filled(child) && Paint(g, px, py, under) == Paint(child, px, py, PaintOwn(g, px, py, under))
  {
    assert Filled(child) by { assert child in g.children; }
    hide PaintOwn;
    assert g.children[..0] == [];
    assert PaintList([], px, py, PaintOwn(g, px, py, under)) == PaintOwn(g, px, py, under);
  }

  // -------------------------------------------------------------- hit testing

  lemma {:induction false} LastCoveringIsThere(s: seq<Graphic>, g: Graphic, px: int, py: int)
    requires g in s && Covers(g, px, py)
    ensures LastCovering(s, px, py).Some? && LastCovering(s, px, py).value in s
    ensures Covers(LastCovering(s, px, py).value, px, py)
  {
    if !Covers(s[|s| - 1], px, py) {
      LastCoveringIsThere(s[..|s| - 1], g, px, py);
    }
  }

  /** Inside the window that was raised, a click reaches the window or something in it. */
  lemma RaisedWindowIsHit(root: Graphic, others: seq<Graphic>, win: Graphic, px: int, py: int, ignored: Option<nat>)
    requires root.children == others + [win] && ContainedBelow(root) && Covers(win, px, py)
    requires !Ignored(root, ignored) && !Ignored(win, ignored)
    ensures Hit(root, px, py, ignored, true).Some?
    ensures Hit(root, px, py, ignored, true).value in Order(win, ignored)
    ensures Covers(Hit(root, px, py, ignored, true).value, px, py)
  {
    HitIsPaintedLast(root, px, py, ignored);
    assert root.children[..|others|] == others;
    var below := OrderList(others, ignored) + Order(win, ignored);
    assert Order(root, ignored) == [root] + below;
    LastCoveringConcat([root], below, px, py);
    LastCoveringConcat(OrderList(others, ignored), Order(win, ignored), px, py);
    assert Order(win, ignored)[0] == win;
    LastCoveringIsThere(Order(win, ignored), win, px, py);
  }

  // ------------------------------------------------------------------ desktop

  /** `graphics_info_recalculate`, on a graphic whose parent is at (parentX, parentY). */
  method Recalculate(g: Graphic, parentX: nat, parentY: nat) returns (r: Graphic)
    ensures r == Recalculated(g, parentX + g.relX, parentY + g.relY)
    decreases g
  {
    hide Recalculated, RecalculatedList;
    var x, y := parentX + g.relX, parentY + g.relY;
    ghost var all := RecalculatedList(g.children, x, y);
    var children: seq<Graphic> := [];
    for i := 0 to |g.children|
      invariant children == all[..i]
    {
      var child := Recalculate(g.children[i], x, y);
      children := children + [child];
    }
    assert children == all;
    RecalculatedParts(g, x, y);
    r := g.(x := x, y := y, children := children);
  }

  lemma RecalculatedParts(g: Graphic, x: nat, y: nat)
    ensures Recalculated(g, x, y) == g.(x := x, y := y, children := RecalculatedList(g.children, x, y))
  {
  }

  lemma SecondStrip(root: Graphic, s: Strips, px: int, py: int, before: Pixel)
    requires Filled(root) && Opaque(root) && Covers(root, px, py)
    ensures var once := if Inside(s.x1, s.y1, s.w1, s.h1, px, py) then Clipped(root, px, py, before) else before;
            StripsShown(root, s, px, py, before) ==
            if Inside(s.x2, s.y2, s.w2, s.h2, px, py) then Clipped(root, px, py, once) else once
  {
    hide Clipped;
    ClippedHides(root, px, py, before, Clipped(root, px, py, before));
  }

  /** Where `window_position_set` puts a coordinate: a window that would stick out is pulled back. */
  function Clamp(at: nat, size: nat, limit: nat): (r: nat)
    requires at + size > limit ==> size < limit
    ensures r <= at && r + size <= limit
    ensures at + size <= limit ==> r == at
    ensures at + size > limit ==> r + size == limit - 1
  {
    if at + size > limit then limit - size - 1 else at
  }

  lemma ClippedHides(root: Graphic, px: int, py: int, p: Pixel, q: Pixel)
    requires Filled(root) && Opaque(root) && Covers(root, px, py)
    ensures Clipped(root, px, py, p) == Clipped(root, px, py, q)
  {
  }

  /** Positions inside the parent and placed by relative offsets mean offsets that fit. */
  lemma {:induction false} PlacedFits(g: Graphic, parentX: nat, parentY: nat)
    requires Contained(g) && Placed(g, parentX, parentY)
    ensures Fits(g)
  {
    forall c | c in g.children ensures c.relX + c.w <= g.w && c.relY + c.h <= g.h && Fits(c) {
      assert Contained(c) && Placed(c, g.x, g.y);
      PlacedFits(c, g.x, g.y);
    }
  }

  /** The children of the screen are placed by their relative offsets. */
  ghost predicate AllPlaced(root: Graphic) {
    forall c :: c in root.children ==> Placed(c, root.x, root.y)
  }

  lemma ChildFits(root: Graphic, i: nat)
    requires ContainedBelow(root) && AllPlaced(root) && i < |root.children|
    ensures Fits(root.children[i])
  {
    hide Contained, Placed, Fits;
    assert root.children[i] in root.children;
    PlacedFits(root.children[i], root.x, root.y);
  }

  lemma ChildIsFilled(root: Graphic, i: nat)
    requires Filled(root) && i < |root.children|
    ensures Filled(root.children[i])
  {
    assert root.children[i] in root.children;
  }

  lemma RaisedIsPlaced(root: Graphic, i: nat, x: nat, y: nat, z: int)
    requires AllPlaced(root) && root.x == root.y == 0 && i < |root.children|
    ensures AllPlaced(Raised(root, i, x, y, z))
  {
    hide Placed, Recalculated;
    RecalculatedIsPlaced(root.children[i].(relX := x, relY := y, z := z), 0, 0);
    assert forall c :: c in root.children[..i] + root.children[i + 1..] ==> c in root.children;
  }

  class Desktop {
    const screen: Screen
    var root: Graphic

    ghost predicate Valid()
      reads this
    {
      && screen.Valid() && Backdrop(root, screen.w, screen.h) && AllPlaced(root)
      && V.SortedBy(root.children, ZIndex())
    }

    /** The framebuffer shows the scene. */
    ghost predicate InSync()
      reads this, screen.fb
      requires Filled(root)
    {
      forall px, py :: 0 <= px < screen.w && 0 <= py < screen.h ==>
        Look(screen.fb[..], screen.pitch, px, py) == Composite(root, px, py)
    }

    constructor (screen: Screen, root: Graphic)
      requires screen.Valid() && Backdrop(root, screen.w, screen.h) && AllPlaced(root)
      requires V.SortedBy(root.children, ZIndex())
      ensures Valid() && this.screen == screen && this.root == root
    {
      this.screen, this.root := screen, root;
    }

    /** A full redraw of the screen brings the framebuffer in sync. */
    method RedrawAll()
      requires Valid()
      modifies screen.fb
      ensures Valid() && InSync()
    {
      hide Look, Paint, PaintList, PaintOwn, ContainedBelow;
      ghost var before := screen.fb[..];
      screen.Redraw(root);
      forall px, py | 0 <= px < screen.w && 0 <= py < screen.h
        ensures Look(screen.fb[..], screen.pitch, px, py) == Composite(root, px, py)
      {
        OpaqueHides(root, px, py, Look(before, screen.pitch, px, py), BLACK);
      }
    }

    /** `graphics_set_z_index` of child `i`. */
    method SetZIndex(i: nat, z: int)
      requires i < |root.children|
      modifies this
      ensures root == old(root).(children := root.children)
      ensures V.SortedBy(root.children, ZIndex())
      ensures V.StablePermutation(old(root.children)[i := old(root.children)[i].(z := z)], root.children, ZIndex())
    {
      var children := new V.Vector(root.children[i := root.children[i].(z := z)]);
      children.Reorder(ZIndex());
      root := root.(children := children.Elements());
    }

    /** `window_bring_to_top`: one above the child that is last. */
    method BringToTop(i: nat)
      requires i < |root.children|
      requires V.SortedBy(root.children[..i] + root.children[i + 1..], ZIndex())
      requires forall c :: c in root.children ==> c.z <= root.children[|root.children| - 1].z
      modifies this
      ensures var s := old(root.children);
              root == old(root).(children := s[..i] + s[i + 1..] + [s[i].(z := s[|s| - 1].z + 1)])
      ensures V.SortedBy(root.children, ZIndex())
    {
      ghost var s := root.children;
      var z := root.children[|root.children| - 1].z;
      SetZIndex(i, z + 1);
      forall y | y in s[..i] + s[i + 1..] ensures ZIndex()(y) < ZIndex()(s[i].(z := z + 1)) {
        assert y in s;
      }
      V.RaisedGoesLast(s, i, s[i].(z := z + 1), root.children, ZIndex());
    }

    /** The strips of a move, repainted from the scene. */
    method RedrawStrips(oldX: nat, oldY: nat, newX: nat, newY: nat, width: nat, height: nat)
      requires screen.Valid() && Backdrop(root, screen.w, screen.h)
      modifies screen.fb
      ensures forall px, py :: 0 <= px < screen.w && 0 <= py < screen.h ==>
        Look(screen.fb[..], screen.pitch, px, py) ==
        StripsShown(root, StripsFor(oldX, oldY, newX, newY, width, height), px, py,
                    Look(old(screen.fb[..]), screen.pitch, px, py))
    {
      hide Look, Clipped, ContainedBelow;
      ghost var before, strips := screen.fb[..], StripsFor(oldX, oldY, newX, newY, width, height);
      var gapX, gapY := oldX - newX, oldY - newY;
      var xRedrawX, xRedrawY, xRedrawWidth, xRedrawHeight := newX + width, oldY, gapX, height;
      if gapX < 0 {
        xRedrawX, xRedrawWidth := newX + gapX, -gapX;
      }
      var yRedrawX, yRedrawY, yRedrawWidth, yRedrawHeight := oldX, newY + height, width, gapY;
      if gapY < 0 {
        yRedrawY, yRedrawHeight := newY + gapY, -gapY;
      }
      if xRedrawWidth > width || xRedrawHeight > height || yRedrawWidth > width || yRedrawHeight > height {
        screen.RedrawRegion(root, oldX, oldY, width, height);
      } else {
        screen.RedrawRegion(root, xRedrawX, xRedrawY, xRedrawWidth, xRedrawHeight);
        screen.RedrawRegion(root, yRedrawX, yRedrawY, yRedrawWidth, yRedrawHeight);
      }
      forall px, py | 0 <= px < screen.w && 0 <= py < screen.h
        ensures Look(screen.fb[..], screen.pitch, px, py) ==
                StripsShown(root, strips, px, py, Look(before, screen.pitch, px, py))
      {
        SecondStrip(root, strips, px, py, Look(before, screen.pitch, px, py));
      }
    }

    /** The window is where it was asked to be, pulled back by as much as it would have stuck out and a pixel more. */
    ghost predicate PulledBack(win: Graphic, width: nat, height: nat, newX: nat, newY: nat) {
      && win.x == win.relX == newX - (if newX + width > screen.w then newX + width - screen.w + 1 else 0)
      && win.y == win.relY == newY - (if newY + height > screen.h then newY + height - screen.h + 1 else 0)
    }

    /**
     `window_position_set` of the window whose graphic is child `i`; `width` and `height`
     are the window's own, without its borders.
     */
    method PositionSet(i: nat, width: nat, height: nat, newX: nat, newY: nat)
      requires Valid() && i < |root.children|
      requires (newX + width > screen.w ==> width < screen.w) && (newY + height > screen.h ==> height < screen.h)
      modifies this, screen.fb
      ensures Valid() && |root.children| == |old(root.children)|
      ensures var x, y := Clamp(newX, width, screen.w), Clamp(newY, height, screen.h);
              root == Raised(old(root), i, x, y, old(root.children[|root.children| - 1].z) + 1)
      ensures Filled(root.children[|root.children| - 1])
      ensures PulledBack(root.children[|root.children| - 1], width, height, newX, newY)
      ensures var x, y, win := Clamp(newX, width, screen.w), Clamp(newY, height, screen.h), old(root.children[i]);
              forall px, py :: 0 <= px < screen.w && 0 <= py < screen.h ==>
                Look(screen.fb[..], screen.pitch, px, py) ==
                MovedPixel(root, root.children[|root.children| - 1],
                           StripsFor(win.x, win.y, x, y, win.w, win.h), px, py,
                           Look(old(screen.fb[..]), screen.pitch, px, py))
      ensures Filled(old(root.children[i]))
      ensures var raised := root.children[|root.children| - 1];
              old(InSync()) && ShowsThroughout(old(root.children[i]), raised, screen.w, screen.h) ==> InSync()
      ensures Opaque(old(root.children[i])) && old(InSync()) ==> InSync()
    {
      hide Look, Filled, Contained, ContainedBelow, Clipped, Paint, PaintList, PaintOwn, MovedWindow, Fits, StripsFor,
        Placed, AllPlaced, StripsShown, KeepsShowing;
      ghost var before, scene := screen.fb[..], root;
      var x, y := newX, newY;
      if newX + width > root.w {
        x := root.w - width - 1;
      }
      if newY + height > root.h {
        y := root.h - height - 1;
      }
      var win := root.children[i];
      ChildFits(scene, i);
      Place(i, x, y);
      var k := |root.children| - 1;
      ghost var z := scene.children[|scene.children| - 1].z + 1;
      RaisedScene(scene, i, x, y, z, 0, 0, BLACK);
      WindowRect(win, x, y, z);
      RaisedIsBackdrop(scene, screen.w, screen.h, i, x, y, z);
      RaisedIsPlaced(scene, i, x, y, z);
      RedrawStrips(win.x, win.y, x, y, win.w, win.h);
      screen.Redraw(root.children[k]);
      ChildIsFilled(scene, i);
      if old(InSync()) {
        forall px, py | 0 <= px < screen.w && 0 <= py < screen.h && KeepsShowing(win, root.children[k], px, py)
          ensures Look(screen.fb[..], screen.pitch, px, py) == Composite(root, px, py)
        {
          MoveKeepsPixel(scene, screen.w, screen.h, i, x, y, z, px, py);
        }
        if Opaque(win) {
          forall px, py | 0 <= px < screen.w && 0 <= py < screen.h ensures KeepsShowing(win, root.children[k], px, py) {
            OpaqueKeepsShowing(win, x, y, z, px, py);
          }
        }
      }
    }

    /** The part of `window_position_set` that changes the scene. */
    method Place(i: nat, x: nat, y: nat)
      requires Valid() && i < |root.children|
      modifies this
      ensures root == Raised(old(root), i, x, y, old(root.children[|root.children| - 1].z) + 1)
      ensures V.SortedBy(root.children, ZIndex())
    {
      ghost var s := root.children;
      var win := root.children[i].(relX := x, relY := y, x := x, y := y);
      root := root.(children := root.children[i := win]);
      BringToTop(i);
      var k := |root.children| - 1;
      var moved := Recalculate(root.children[k], root.x, root.y);
      root := root.(children := root.children[k := moved]);
    }
  }
}
