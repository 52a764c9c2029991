/** The compositor's double buffer (ConWindow.dblBuffer), one tile per text
    cell, and what Redraw paints into it (src/ConWindow.cs:171-261). A cell
    (x, y) owns the pixel rectangle (x*textSize.X, y*textSize.Y, textSize.X,
    textSize.Y); CellRectsDisjoint shows two cells never share a pixel, so a
    back fill or a wallpaper restore touches exactly one tile. Glyphs are not
    clipped to their rectangle, and a tile does not record a neighbour's
    overhang. */
module Canvas {
  import opened NativeMethods
  import opened ConsoleView
  import opened Damage

  /** What one cell rectangle of the double buffer shows. */
  datatype Tile =
    | Blank                                         // a freshly allocated bitmap
    | Wallpaper                                     // the background layer alone
    | Filled(back: int, onWallpaper: bool)          // back colour filled, glyph not drawn
    | Painted(glyph: char, fore: int, back: int, onWallpaper: bool)

  /** A pixel lies in the rectangle of exactly one cell: the one its
      coordinates divide down to. */
  lemma CellRectsDisjoint(px: int, py: int, textWidth: int, textHeight: int, p: Point)
    requires textWidth > 0 && textHeight > 0
    ensures (p.x * textWidth <= px < p.x * textWidth + textWidth
             && p.y * textHeight <= py < p.y * textHeight + textHeight)
        <==> p == Point(px / textWidth, py / textHeight)
  {
    InCellSpan(px, textWidth, p.x);
    InCellSpan(py, textHeight, p.y);
  }

  lemma InCellSpan(v: int, size: int, c: int)
    requires size > 0
    ensures c * size <= v < c * size + size <==> c == v / size
  {
    var q := v / size;
    assert q * size <= v < q * size + size;
    if c < q {
      assert (q - c) * size >= size by { MulAtLeast(q - c, size); }
    } else if c > q {
      assert (c - q) * size >= size by { MulAtLeast(c - q, size); }
    }
  }

  /** A cell's lookups stay in range: painting it cannot raise. */
  predicate Paintable(f: Frame, p: Point) {
    !InView(f, p.x, p.y) || CellAt(f, p.x, p.y).Found?
  }

  /** One cell's drawing sequence, over the tile `under` it starts from: fill
      with GetBackColor, then draw GetCharacter in GetForeColor. The boolean is
      false when a lookup raised, leaving the tile as far as it got. */
  function PaintCell(f: Frame, under: Tile, x: int, y: int): (r: (Tile, bool))
    ensures r.1 <==> Paintable(f, Point(x, y))
    ensures r.1 ==> r.0 == Painted(GetCharacter(f, x, y).value, GetForeColor(f, x, y).value,
                                   GetBackColor(f, x, y).value, under == Wallpaper)
    ensures !r.1 ==> r.0 == if CursorShownAt(f, x, y) then Filled(f.cursorBack, under == Wallpaper) else under
  {
    match GetBackColor(f, x, y)
    case IndexOutOfRange => (under, false)
    case Found(back) =>
      var fill := Filled(back, under == Wallpaper);
      match GetCharacter(f, x, y)
      case IndexOutOfRange => (fill, false)
      case Found(glyph) =>
        match GetForeColor(f, x, y)
        case IndexOutOfRange => (fill, false)
        case Found(fore) => (Painted(glyph, fore, back, under == Wallpaper), true)
  }

  /** With the cursor colours among the 16 brushes, every colour a lookup
      returns indexes backBrushes and foreBrushes in range: only the cell
      grid itself can raise while painting. */
  lemma BrushIndicesInRange(f: Frame, x: int, y: int)
    requires 0 <= f.cursorFore < NUM_COLORS && 0 <= f.cursorBack < NUM_COLORS
    ensures GetBackColor(f, x, y).Found? ==> 0 <= GetBackColor(f, x, y).value < NUM_COLORS
    ensures GetForeColor(f, x, y).Found? ==> 0 <= GetForeColor(f, x, y).value < NUM_COLORS
  {
  }

  /** The cell's rectangle lies inside a canvas `cols` by `rows` cells. */
  predicate OnCanvas(p: Point, cols: int, rows: int) {
    0 <= p.x < cols && 0 <= p.y < rows
  }

  lemma SlotInRange(p: Point, cols: int, rows: int)
    requires OnCanvas(p, cols, rows)
    ensures 0 <= IndexOf(p, cols) < cols * rows
  {
    RowMajorInRange(p.y, p.x, cols, rows);
  }

  lemma SlotInjective(p: Point, q: Point, cols: int, rows: int)
    requires OnCanvas(p, cols, rows) && OnCanvas(q, cols, rows)
    requires IndexOf(p, cols) == IndexOf(q, cols)
    ensures p == q
  {
    SlotInRange(p, cols, rows);
    SlotInRange(q, cols, rows);
    PointOfIndexOf(p, cols);
    PointOfIndexOf(q, cols);
  }

  /** Paint one point. With `restore` (patch mode) the wallpaper is first
      copied back under every cell but the cursor's. A point off the canvas
      is clipped away, but its lookups still run and can still raise. */
  function PaintPoint(f: Frame, tiles: seq<Tile>, cols: int, rows: int, p: Point, restore: bool): (r: (seq<Tile>, bool))
    requires 0 <= cols && 0 <= rows && |tiles| == cols * rows
    ensures |r.0| == |tiles|
    ensures r.1 <==> Paintable(f, p)
    ensures forall k :: 0 <= k < |tiles| && !(OnCanvas(p, cols, rows) && k == IndexOf(p, cols)) ==> r.0[k] == tiles[k]
  {
    if OnCanvas(p, cols, rows) then
      SlotInRange(p, cols, rows);
      var k := IndexOf(p, cols);
      var under := if restore && !(p.x == f.cursorX && p.y == f.cursorY) then Wallpaper else tiles[k];
      var (t, ok) := PaintCell(f, under, p.x, p.y);
      (tiles[k := t], ok)
    else
      (tiles, PaintCell(f, Wallpaper, p.x, p.y).1)
  }

  /** Paint a list of points in order, stopping at the first one that raises. */
  function PaintPoints(f: Frame, tiles: seq<Tile>, cols: int, rows: int, pts: seq<Point>, restore: bool): (r: (seq<Tile>, bool))
    requires 0 <= cols && 0 <= rows && |tiles| == cols * rows
    ensures |r.0| == |tiles|
    decreases |pts|
  {
    if pts == [] then (tiles, true)
    else
      var pre := PaintPoints(f, tiles, cols, rows, pts[..|pts| - 1], restore);
      if !pre.1 then pre
      else PaintPoint(f, pre.0, cols, rows, pts[|pts| - 1], restore)
  }

  /** Some point of the list lands on canvas slot k. */
  predicate Hit(pts: seq<Point>, cols: int, rows: int, k: int) {
    exists p :: p in pts && OnCanvas(p, cols, rows) && IndexOf(p, cols) == k
  }

  predicate NoRepeats(pts: seq<Point>) {
    forall a, b :: 0 <= a < b < |pts| ==> pts[a] != pts[b]
  }

  /** Painting succeeds exactly when every point's lookups are in range. */
  lemma {:induction false} PaintPointsOk(f: Frame, tiles: seq<Tile>, cols: int, rows: int, pts: seq<Point>, restore: bool)
    requires 0 <= cols && 0 <= rows && |tiles| == cols * rows
    ensures PaintPoints(f, tiles, cols, rows, pts, restore).1 <==> forall p :: p in pts ==> Paintable(f, p)
    decreases |pts|
  {
    if pts != [] {
      var pre := pts[..|pts| - 1];
      PaintPointsOk(f, tiles, cols, rows, pre, restore);
      assert pts == pre + [pts[|pts| - 1]];
    }
  }

  /** Only the slots of listed points change. */
  lemma {:induction false} PaintPointsFrame(f: Frame, tiles: seq<Tile>, cols: int, rows: int, pts: seq<Point>, restore: bool, k: int)
    requires 0 <= cols && 0 <= rows && |tiles| == cols * rows
    requires 0 <= k < |tiles| && !Hit(pts, cols, rows, k)
    ensures PaintPoints(f, tiles, cols, rows, pts, restore).0[k] == tiles[k]
    decreases |pts|
  {
    if pts != [] {
      var pre := pts[..|pts| - 1];
      assert forall p :: p in pre ==> p in pts;
      PaintPointsFrame(f, tiles, cols, rows, pre, restore, k);
      assert pts[|pts| - 1] in pts;
    }
  }

  /** A listed cell ends up painted straight onto wallpaper when the wallpaper
      was restored under it (patch mode, not the cursor cell), or when it is
      painted once over a slot that held wallpaper (full mode). */
  lemma {:induction false} PaintPointsPainted(f: Frame, tiles: seq<Tile>, cols: int, rows: int, pts: seq<Point>, restore: bool, p: Point)
    requires 0 <= cols && 0 <= rows && |tiles| == cols * rows
    requires PaintPoints(f, tiles, cols, rows, pts, restore).1
    requires p in pts && OnCanvas(p, cols, rows) && 0 <= IndexOf(p, cols) < |tiles|
    requires (restore && !(p.x == f.cursorX && p.y == f.cursorY))
          || (NoRepeats(pts) && tiles[IndexOf(p, cols)] == Wallpaper)
    ensures PaintPoints(f, tiles, cols, rows, pts, restore).0[IndexOf(p, cols)] == PaintCell(f, Wallpaper, p.x, p.y).0
    decreases |pts|
  {
    var pre := pts[..|pts| - 1];
    var q := pts[|pts| - 1];
    var k := IndexOf(p, cols);
    var r0 := PaintPoints(f, tiles, cols, rows, pre, restore);
    assert pts == pre + [q];
    if q == p {
      if !(restore && !(p.x == f.cursorX && p.y == f.cursorY)) {
        forall r | r in pre && OnCanvas(r, cols, rows) ensures IndexOf(r, cols) != k {
          var a :| 0 <= a < |pre| && pre[a] == r;
          assert pts[a] == r;
          if IndexOf(r, cols) == k {
            SlotInjective(r, p, cols, rows);
          }
        }
        PaintPointsFrame(f, tiles, cols, rows, pre, restore, k);
      }
    } else {
      assert p in pre;
      PaintPointsPainted(f, tiles, cols, rows, pre, restore, p);
      if OnCanvas(q, cols, rows) && IndexOf(q, cols) == k {
        SlotInjective(q, p, cols, rows);
      }
    }
  }

  /** A cell listed exactly once is painted over the tile it starts from:
      the restored wallpaper in patch mode (except under the cursor), and
      otherwise the tile the slot held before the call. */
  lemma {:induction false} PaintPointsOnce(f: Frame, tiles: seq<Tile>, cols: int, rows: int, pts: seq<Point>, restore: bool, p: Point)
    requires 0 <= cols && 0 <= rows && |tiles| == cols * rows
    requires PaintPoints(f, tiles, cols, rows, pts, restore).1
    requires OnCanvas(p, cols, rows) && multiset(pts)[p] == 1
    ensures 0 <= IndexOf(p, cols) < |tiles|
    ensures PaintPoints(f, tiles, cols, rows, pts, restore).0[IndexOf(p, cols)]
         == PaintCell(f, if restore && !(p.x == f.cursorX && p.y == f.cursorY) then Wallpaper
                         else tiles[IndexOf(p, cols)], p.x, p.y).0
    decreases |pts|
  {
    SlotInRange(p, cols, rows);
    assert pts != [];
    var pre := pts[..|pts| - 1];
    var q := pts[|pts| - 1];
    var k := IndexOf(p, cols);
    assert pts == pre + [q];
    assert multiset(pts) == multiset(pre) + multiset{q};
    if q == p {
      assert p !in pre;
      forall r | r in pre && OnCanvas(r, cols, rows) ensures IndexOf(r, cols) != k {
        if IndexOf(r, cols) == k {
          SlotInjective(r, p, cols, rows);
        }
      }
      PaintPointsFrame(f, tiles, cols, rows, pre, restore, k);
    } else {
      PaintPointsOnce(f, tiles, cols, rows, pre, restore, p);
      if OnCanvas(q, cols, rows) && IndexOf(q, cols) == k {
        SlotInjective(q, p, cols, rows);
      }
    }
  }

  /** A cell painted with no wallpaper restored under it (full mode's pass
      over a slot, or the cursor cell in patch mode), listed any number of
      times: it shows its glyph and colours, and it sits straight on
      wallpaper only when it is listed once over a slot that held wallpaper.
      Every later listing paints over the earlier paint. */
  lemma {:induction false} PaintPointsUnrestored(f: Frame, tiles: seq<Tile>, cols: int, rows: int, pts: seq<Point>, restore: bool, p: Point)
    requires 0 <= cols && 0 <= rows && |tiles| == cols * rows
    requires PaintPoints(f, tiles, cols, rows, pts, restore).1
    requires OnCanvas(p, cols, rows) && p in pts
    requires !restore || (p.x == f.cursorX && p.y == f.cursorY)
    ensures Paintable(f, p) && 0 <= IndexOf(p, cols) < |tiles|
    ensures PaintPoints(f, tiles, cols, rows, pts, restore).0[IndexOf(p, cols)]
         == Painted(GetCharacter(f, p.x, p.y).value, GetForeColor(f, p.x, p.y).value, GetBackColor(f, p.x, p.y).value,
                    tiles[IndexOf(p, cols)] == Wallpaper && multiset(pts)[p] == 1)
    decreases |pts|
  {
    SlotInRange(p, cols, rows);
    PaintPointsOk(f, tiles, cols, rows, pts, restore);
    var pre := pts[..|pts| - 1];
    var q := pts[|pts| - 1];
    var k := IndexOf(p, cols);
    assert pts == pre + [q];
    assert multiset(pts) == multiset(pre) + multiset{q};
    PaintPointsOk(f, tiles, cols, rows, pre, restore);
    var r0 := PaintPoints(f, tiles, cols, rows, pre, restore);
    if q == p {
      if p in pre {
        PaintPointsUnrestored(f, tiles, cols, rows, pre, restore, p);
        assert r0.0[k] != Wallpaper;
      } else {
        forall r | r in pre && OnCanvas(r, cols, rows) ensures IndexOf(r, cols) != k {
          if IndexOf(r, cols) == k {
            SlotInjective(r, p, cols, rows);
          }
        }
        PaintPointsFrame(f, tiles, cols, rows, pre, restore, k);
      }
    } else {
      assert p in pre;
      PaintPointsUnrestored(f, tiles, cols, rows, pre, restore, p);
      if OnCanvas(q, cols, rows) && IndexOf(q, cols) == k {
        SlotInjective(q, p, cols, rows);
      }
    }
  }

  /** Once a prefix has raised, the rest of the list is never painted. */
  lemma {:induction false} PaintPointsStops(f: Frame, tiles: seq<Tile>, cols: int, rows: int, pts: seq<Point>, restore: bool, m: nat)
    requires 0 <= cols && 0 <= rows && |tiles| == cols * rows
    requires m <= |pts| && !PaintPoints(f, tiles, cols, rows, pts[..m], restore).1
    ensures PaintPoints(f, tiles, cols, rows, pts, restore) == PaintPoints(f, tiles, cols, rows, pts[..m], restore)
    decreases |pts|
  {
    if m < |pts| {
      var pre := pts[..|pts| - 1];
      assert pre[..m] == pts[..m];
      PaintPointsStops(f, tiles, cols, rows, pre, restore, m);
    } else {
      assert pts[..m] == pts;
    }
  }

  /** Painting one more point extends the fold by one step. */
  lemma PaintPointsSnoc(f: Frame, tiles: seq<Tile>, cols: int, rows: int, pts: seq<Point>, n: nat, restore: bool)
    requires 0 <= cols && 0 <= rows && |tiles| == cols * rows
    requires n < |pts|
    ensures var pre := PaintPoints(f, tiles, cols, rows, pts[..n], restore);
      PaintPoints(f, tiles, cols, rows, pts[..n + 1], restore)
      == if pre.1 then PaintPoint(f, pre.0, cols, rows, pts[n], restore) else pre
  {
    assert pts[..n + 1][..n] == pts[..n];
  }

  // ---------------------------------------------------------------------
  // Full mode

  /** Row i of a w-wide view, left to right. */
  function ScanRow(w: int, i: int): (row: seq<Point>)
    requires w >= 0
    ensures |row| == w
  {
    seq(w, j => Point(j, i))
  }

  /** Every cell of a w-by-h view, row after row, in the order Redraw's
      nested loops visit them. */
  function ScanOrder(w: int, h: int): (pts: seq<Point>)
    ensures |pts| == if w <= 0 || h <= 0 then 0 else w * h
    decreases h
  {
    if w <= 0 || h <= 0 then []
    else ScanOrder(w, h - 1) + ScanRow(w, h - 1)
  }

  /** Cell (j, i) is the (i*w + j)-th point of the scan. */
  lemma {:induction false} ScanAt(i: int, j: int, w: int, h: int)
    requires 0 <= i < h && 0 <= j < w
    ensures 0 <= i * w + j < |ScanOrder(w, h)|
    ensures ScanOrder(w, h)[i * w + j] == Point(j, i)
    decreases h
  {
    RowMajorInRange(i, j, w, h);
    var pre := ScanOrder(w, h - 1);
    var row := ScanRow(w, h - 1);
    assert ScanOrder(w, h) == pre + row;
    if i == h - 1 {
      assert |pre| == i * w by {
        if h - 1 > 0 { assert w * (h - 1) == (h - 1) * w; }
      }
      assert row[j] == Point(j, i);
    } else {
      ScanAt(i, j, w, h - 1);
    }
  }

  /** The scan visits exactly the cells of the view. */
  lemma {:induction false} ScanOrderMembers(w: int, h: int, p: Point)
    ensures p in ScanOrder(w, h) <==> 0 <= p.x < w && 0 <= p.y < h
    decreases h
  {
    if w > 0 && h > 0 {
      ScanOrderMembers(w, h - 1, p);
      if p.y == h - 1 && 0 <= p.x < w {
        assert ScanRow(w, h - 1)[p.x] == p;
      }
    }
  }

  /** The scan position after row i is where row i + 1 starts. */
  lemma NextRow(i: int, w: int, h: int)
    requires 0 <= i < h && 0 <= w
    ensures i * w + w == (i + 1) * w <= w * h
  {
    MulMonotone(w, i + 1, h);
  }

  /** The scan visits no cell twice. */
  lemma {:induction false} ScanOrderNoRepeats(w: int, h: int)
    ensures NoRepeats(ScanOrder(w, h))
    decreases h
  {
    if w > 0 && h > 0 {
      var pre := ScanOrder(w, h - 1);
      var row := ScanRow(w, h - 1);
      var pts := pre + row;
      ScanOrderNoRepeats(w, h - 1);
      forall a, b | 0 <= a < b < |pts| ensures pts[a] != pts[b] {
        if a < |pre| <= b {
          ScanOrderMembers(w, h - 1, pre[a]);
        }
      }
    }
  }

  /** All in-view lookups are in range: the whole view can be painted. */
  predicate ViewReadable(f: Frame) {
    forall p :: p in ScanOrder(f.viewWidth, f.viewHeight) ==> Paintable(f, p)
  }

  /** Full mode: wallpaper over the whole canvas, then every view cell in scan order. */
  function FullRepaint(f: Frame, cols: int, rows: int): (r: (seq<Tile>, bool))
    requires 0 <= cols && 0 <= rows
    ensures |r.0| == cols * rows
  {
    PaintPoints(f, seq(cols * rows, _ => Wallpaper), cols, rows, ScanOrder(f.viewWidth, f.viewHeight), false)
  }

  /** A full repaint succeeds iff the whole view is readable; then every canvas
      cell in the view shows its glyph, fore and back colour straight on the
      wallpaper, and every canvas cell outside the view shows wallpaper. */
  lemma FullRepaintResult(f: Frame, cols: int, rows: int)
    requires 0 <= cols && 0 <= rows
    ensures FullRepaint(f, cols, rows).1 <==> ViewReadable(f)
    ensures FullRepaint(f, cols, rows).1 ==>
      forall p :: OnCanvas(p, cols, rows) ==>
        && 0 <= IndexOf(p, cols) < cols * rows
        && FullRepaint(f, cols, rows).0[IndexOf(p, cols)]
           == if InView(f, p.x, p.y) then PaintCell(f, Wallpaper, p.x, p.y).0 else Wallpaper
  {
    var wall := seq(cols * rows, _ => Wallpaper);
    var pts := ScanOrder(f.viewWidth, f.viewHeight);
    var r := FullRepaint(f, cols, rows);
    PaintPointsOk(f, wall, cols, rows, pts, false);
    if r.1 {
      forall p | OnCanvas(p, cols, rows)
        ensures 0 <= IndexOf(p, cols) < cols * rows
        ensures r.0[IndexOf(p, cols)] == if InView(f, p.x, p.y) then PaintCell(f, Wallpaper, p.x, p.y).0 else Wallpaper
      {
        SlotInRange(p, cols, rows);
        ScanOrderMembers(f.viewWidth, f.viewHeight, p);
        if InView(f, p.x, p.y) {
          ScanOrderNoRepeats(f.viewWidth, f.viewHeight);
          PaintPointsPainted(f, wall, cols, rows, pts, false, p);
        } else {
          forall q | q in pts && OnCanvas(q, cols, rows) ensures IndexOf(q, cols) != IndexOf(p, cols) {
            ScanOrderMembers(f.viewWidth, f.viewHeight, q);
            if IndexOf(q, cols) == IndexOf(p, cols) {
              SlotInjective(q, p, cols, rows);
            }
          }
          PaintPointsFrame(f, wall, cols, rows, pts, false, IndexOf(p, cols));
        }
      }
    }
  }

  /** A buffer exactly as wide as the view, with a full grid, is always readable. */
  lemma NarrowBufferReadable(f: Frame)
    requires f.bufferWidth == f.viewWidth && |f.cells| == f.viewWidth * f.viewHeight
    ensures ViewReadable(f)
  {
    forall p | p in ScanOrder(f.viewWidth, f.viewHeight) ensures Paintable(f, p) {
      ScanOrderMembers(f.viewWidth, f.viewHeight, p);
      StrideMatchesScan(f, p.x, p.y);
    }
  }

  /** A buffer wider than a view of two or more rows makes every full repaint raise. */
  lemma WideBufferUnreadable(f: Frame)
    requires 1 <= f.viewWidth < f.bufferWidth && 2 <= f.viewHeight
    requires |f.cells| == f.viewWidth * f.viewHeight
    ensures !ViewReadable(f)
  {
    var p := Point(f.viewWidth - 1, f.viewHeight - 1);
    WideBufferOverruns(f);
    ScanOrderMembers(f.viewWidth, f.viewHeight, p);
    assert !Paintable(f, p);
  }

  // ---------------------------------------------------------------------
  // Patch mode

  /** Patch mode: the damage points in list order, restoring the wallpaper first. */
  function PatchRepaint(f: Frame, tiles: seq<Tile>, cols: int, rows: int, damage: seq<Point>): (r: (seq<Tile>, bool))
    requires 0 <= cols && 0 <= rows && |tiles| == cols * rows
    ensures |r.0| == |tiles|
  {
    PaintPoints(f, tiles, cols, rows, damage, true)
  }

  /** A patch succeeds iff every damage point is readable; only the damaged
      cells' slots change; each damaged cell other than the cursor cell
      shows its glyph and colours straight on restored wallpaper; and the
      cursor cell, however often it is listed, is painted with no wallpaper
      restored under it, so it sits on wallpaper only when listed once over a
      slot that already held wallpaper. */
  lemma PatchRepaintResult(f: Frame, tiles: seq<Tile>, cols: int, rows: int, damage: seq<Point>)
    requires 0 <= cols && 0 <= rows && |tiles| == cols * rows
    ensures PatchRepaint(f, tiles, cols, rows, damage).1 <==> forall p :: p in damage ==> Paintable(f, p)
    ensures forall k :: 0 <= k < |tiles| && !Hit(damage, cols, rows, k) ==>
      PatchRepaint(f, tiles, cols, rows, damage).0[k] == tiles[k]
    ensures PatchRepaint(f, tiles, cols, rows, damage).1 ==>
      forall p :: p in damage && OnCanvas(p, cols, rows) && !(p.x == f.cursorX && p.y == f.cursorY) ==>
        && 0 <= IndexOf(p, cols) < |tiles|
        && PatchRepaint(f, tiles, cols, rows, damage).0[IndexOf(p, cols)] == PaintCell(f, Wallpaper, p.x, p.y).0
    ensures var c := Point(f.cursorX, f.cursorY);
      PatchRepaint(f, tiles, cols, rows, damage).1 && OnCanvas(c, cols, rows) && multiset(damage)[c] == 1 ==>
        && 0 <= IndexOf(c, cols) < |tiles|
        && PatchRepaint(f, tiles, cols, rows, damage).0[IndexOf(c, cols)]
           == PaintCell(f, tiles[IndexOf(c, cols)], c.x, c.y).0
    ensures var c := Point(f.cursorX, f.cursorY);
      PatchRepaint(f, tiles, cols, rows, damage).1 && OnCanvas(c, cols, rows) && c in damage ==>
        && Paintable(f, c) && 0 <= IndexOf(c, cols) < |tiles|
        && PatchRepaint(f, tiles, cols, rows, damage).0[IndexOf(c, cols)]
           == Painted(GetCharacter(f, c.x, c.y).value, GetForeColor(f, c.x, c.y).value, GetBackColor(f, c.x, c.y).value,
                      tiles[IndexOf(c, cols)] == Wallpaper && multiset(damage)[c] == 1)
  {
    PaintPointsOk(f, tiles, cols, rows, damage, true);
    forall k | 0 <= k < |tiles| && !Hit(damage, cols, rows, k)
      ensures PatchRepaint(f, tiles, cols, rows, damage).0[k] == tiles[k]
    {
      PaintPointsFrame(f, tiles, cols, rows, damage, true, k);
    }
    if PatchRepaint(f, tiles, cols, rows, damage).1 {
      forall p | p in damage && OnCanvas(p, cols, rows) && !(p.x == f.cursorX && p.y == f.cursorY)
        ensures 0 <= IndexOf(p, cols) < |tiles|
        ensures PatchRepaint(f, tiles, cols, rows, damage).0[IndexOf(p, cols)] == PaintCell(f, Wallpaper, p.x, p.y).0
      {
        SlotInRange(p, cols, rows);
        PaintPointsPainted(f, tiles, cols, rows, damage, true, p);
      }
      var c := Point(f.cursorX, f.cursorY);
      if OnCanvas(c, cols, rows) && multiset(damage)[c] == 1 {
        PaintPointsOnce(f, tiles, cols, rows, damage, true, c);
      }
      if OnCanvas(c, cols, rows) && c in damage {
        PaintPointsUnrestored(f, tiles, cols, rows, damage, true, c);
      }
    }
  }

  /** Redraw's policy: a full repaint when there is no damage list or it holds
      more than ViewWidth / 4 points, in integer division. */
  function FullMode(damage: Option<seq<Point>>, viewWidth: int): (full: bool)
    requires viewWidth >= 0
    ensures full <==> damage.None? || 4 * |damage.value| > viewWidth
  {
    damage.None? || |damage.value| > viewWidth / 4
  }
}
