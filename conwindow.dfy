/** The ConWindow form (src/ConWindow.cs): the double buffer it paints into,
    the scroll column and thumb, and the handlers that drive the Console.
    Font measurement, the wallpaper image and the screen itself are not
    modelled: the measured text cell size and the system frame sizes are
    parameters, and the double buffer is a tile per text cell. */
module Window {
  import opened NativeMethods
  import opened ConsoleView
  import opened Damage
  import opened Scrolling
  import opened Canvas
  import opened ConsoleBuffer

  class ConWindow {
    const con: Console
    /** GetSystemMetrics(32) and GetSystemMetrics(33): the sizing-frame extents. */
    const frameWidth: int
    const frameHeight: int
    /** textSize: one character cell of the console font, in pixels. */
    var textWidth: int
    var textHeight: int
    var scrollArea: RectF
    var scrollPos: RectF
    /** dblBuffer, `cols` by `rows` cells as allocated by the last ChangeSize. */
    var canvas: array<Tile>
    var cols: int
    var rows: int
    /** wallBuffer is non-null: set by the first OnMoveSize. */
    var hasWallpaper: bool
    var clientWidth: int
    var clientHeight: int
    var started: bool

    ghost predicate Valid()
      reads this, con
    {
      && con.Valid()
      && textWidth > 0 && textHeight > 0
      && 0 <= cols && 0 <= rows && canvas.Length == cols * rows
    }

    /** The form starts with no double buffer and no wallpaper; SizeText
        fixes the text cell size and the scroll column. */
    constructor (con: Console, frameWidth: int, frameHeight: int, textWidth: int, textHeight: int,
                 clientWidth: int, clientHeight: int)
      requires con.Valid() && textWidth > 0 && textHeight > 0
      ensures Valid() && this.con == con
      ensures this.frameWidth == frameWidth && this.frameHeight == frameHeight
      ensures this.textWidth == textWidth && this.textHeight == textHeight
      ensures scrollArea == ScrollArea(ViewWidth(con.info), ViewHeight(con.info), textWidth, textHeight)
      ensures scrollPos == RectF(0.0, 0.0, 0.0, 0.0)
      ensures cols == 0 && rows == 0 && !hasWallpaper && !started
      ensures this.clientWidth == clientWidth && this.clientHeight == clientHeight
    {
      this.con := con;
      this.frameWidth, this.frameHeight := frameWidth, frameHeight;
      this.textWidth, this.textHeight := textWidth, textHeight;
      scrollArea := RectF(0.0, 0.0, 0.0, 0.0);
      scrollPos := RectF(0.0, 0.0, 0.0, 0.0);
      canvas := new Tile[0];
      cols, rows := 0, 0;
      hasWallpaper, started := false, false;
      this.clientWidth, this.clientHeight := clientWidth, clientHeight;
      new;
      SizeText(textWidth, textHeight);
    }

    /** Take the measured size of one character and place the scroll column:
        one cell wide, right of the view's text, as tall as the text rows. */
    method SizeText(textWidth: int, textHeight: int)
      requires Valid() && textWidth > 0 && textHeight > 0
      modifies this`textWidth, this`textHeight, this`scrollArea
      ensures Valid()
      ensures this.textWidth == textWidth && this.textHeight == textHeight
      ensures scrollArea == ScrollArea(ViewWidth(con.info), ViewHeight(con.info), textWidth, textHeight)
      ensures scrollArea.left == (ViewWidth(con.info) * textWidth) as real && scrollArea.width == textWidth as real
    {
      this.textWidth, this.textHeight := textWidth, textHeight;
      scrollArea := ScrollArea(ViewWidth(con.info), ViewHeight(con.info), textWidth, textHeight);
    }

    /** Size the client area for the view plus one scroll column and the frame,
        and allocate a blank double buffer of one tile per view cell. */
    method ChangeSize()
      requires Valid()
      modifies this`clientWidth, this`clientHeight, this`canvas, this`cols, this`rows, this`started
      ensures Valid() && started
      ensures clientWidth == textWidth * (ViewWidth(con.info) + 1) + frameWidth
      ensures clientHeight == textHeight * ViewHeight(con.info) + frameHeight
      ensures cols == ViewWidth(con.info) && rows == ViewHeight(con.info)
      ensures fresh(canvas) && canvas[..] == seq(cols * rows, _ => Blank)
    {
      ViewFitsBuffer(con.info);
      clientWidth := textWidth * (ViewWidth(con.info) + 1) + frameWidth;
      clientHeight := textHeight * ViewHeight(con.info) + frameHeight;
      cols, rows := ViewWidth(con.info), ViewHeight(con.info);
      canvas := new Tile[cols * rows](_ => Blank);
      assert canvas[..] == seq(cols * rows, _ => Blank);
      started := true;
    }

    /** One cell as both Redraw loops paint it: the wallpaper restored under it
        (patch mode, not the cursor cell), then the fill in its back colour,
        then its glyph in its fore colour. A lookup that raises ends it there. */
    method PaintAt(f: Frame, p: Point, restore: bool) returns (ok: bool)
      requires 0 <= cols && 0 <= rows && canvas.Length == cols * rows
      modifies canvas
      ensures (canvas[..], ok) == PaintPoint(f, old(canvas[..]), cols, rows, p, restore)
    {
      ghost var start := canvas[..];
      var onCanvas := 0 <= p.x < cols && 0 <= p.y < rows;
      var k := p.y * cols + p.x;
      if onCanvas {
        SlotInRange(p, cols, rows);
      }
      ghost var under := if onCanvas && !(restore && !(f.cursorX == p.x && f.cursorY == p.y)) then start[k] else Wallpaper;
      if onCanvas && restore && !(f.cursorX == p.x && f.cursorY == p.y) {
        canvas[k] := Wallpaper;
      }
      assert onCanvas ==> canvas[..] == start[k := under];
      var onWallpaper := onCanvas && canvas[k] == Wallpaper;
      var back := GetBackColor(f, p.x, p.y);
      if back.IndexOutOfRange? {
        return false;
      }
      if onCanvas {
        canvas[k] := Filled(back.value, onWallpaper);
        assert canvas[..] == start[k := Filled(back.value, onWallpaper)];
      }
      var glyph := GetCharacter(f, p.x, p.y);
      if glyph.IndexOutOfRange? {
        return false;
      }
      var fore := GetForeColor(f, p.x, p.y);
      if fore.IndexOutOfRange? {
        return false;
      }
      if onCanvas {
        canvas[k] := Painted(glyph.value, fore.value, back.value, onWallpaper);
        assert canvas[..] == start[k := Painted(glyph.value, fore.value, back.value, onWallpaper)];
      }
      return true;
    }

    /** Paint the n-th point of a list whose first n points are painted: the
        buffer then holds the first n + 1 points painted, or, when the point
        raised, what painting the whole list leaves. */
    method PaintNext(f: Frame, ghost tiles: seq<Tile>, ghost pts: seq<Point>, n: nat, p: Point, restore: bool)
      returns (ok: bool)
      requires 0 <= cols && 0 <= rows && canvas.Length == cols * rows && |tiles| == cols * rows
      requires n < |pts| && pts[n] == p
      requires (canvas[..], true) == PaintPoints(f, tiles, cols, rows, pts[..n], restore)
      modifies canvas
      ensures ok ==> (canvas[..], true) == PaintPoints(f, tiles, cols, rows, pts[..n + 1], restore)
      ensures !ok ==> (canvas[..], false) == PaintPoints(f, tiles, cols, rows, pts, restore)
    {
      PaintPointsSnoc(f, tiles, cols, rows, pts, n, restore);
      ok := PaintAt(f, p, restore);
      if !ok {
        PaintPointsStops(f, tiles, cols, rows, pts, restore, n + 1);
      }
    }

    /** Nothing before the wallpaper exists. Full mode (no damage list, or more
        than ViewWidth/4 points) recomputes the thumb, lays the wallpaper over
        the whole buffer and paints every view cell; patch mode paints only the
        damage points. `ok` is false when a cell lookup raised, which leaves
        the buffer as far as painting got. */
    method Redraw(damage: Option<seq<Point>>) returns (ok: bool)
      requires Valid()
      modifies this`scrollPos, canvas
      ensures Valid()
      ensures !hasWallpaper ==> ok && scrollPos == old(scrollPos) && canvas[..] == old(canvas[..])
      ensures hasWallpaper && FullMode(damage, ViewWidth(con.info)) ==>
        && scrollPos == Thumb(scrollArea, ViewY(con.info), ViewHeight(con.info), BufferHeight(con.info), clientHeight)
        && (canvas[..], ok) == FullRepaint(con.View(), cols, rows)
      ensures hasWallpaper && !FullMode(damage, ViewWidth(con.info)) ==>
        && scrollPos == old(scrollPos)
        && (canvas[..], ok) == PatchRepaint(con.View(), old(canvas[..]), cols, rows, damage.value)
    {
      if !hasWallpaper {
        return true;
      }
      ViewFitsBuffer(con.info);
      var f := con.View();
      var vw, vh := ViewWidth(con.info), ViewHeight(con.info);
      if damage.None? || |damage.value| > vw / 4 {
        scrollPos := Thumb(scrollArea, ViewY(con.info), vh, BufferHeight(con.info), clientHeight);
        ok := PaintAll(f);
      } else {
        ok := PaintDamage(f, damage.value);
      }
    }

    /** Full mode's first step: the wallpaper image drawn over every cell of the double buffer. */
    method LayWallpaper()
      requires canvas.Length == cols * rows
      modifies canvas
      ensures canvas[..] == seq(cols * rows, _ => Wallpaper)
    {
      var k := 0;
      while k < canvas.Length
        invariant 0 <= k <= canvas.Length
        invariant forall m :: 0 <= m < k ==> canvas[m] == Wallpaper
      {
        canvas[k] := Wallpaper;
        k := k + 1;
      }
    }

    /** Full mode's painting: the wallpaper over the whole double buffer, then
        every view cell, row by row. */
    method PaintAll(f: Frame) returns (ok: bool)
      requires 0 <= cols && 0 <= rows && canvas.Length == cols * rows
      requires 1 <= f.viewWidth && 1 <= f.viewHeight
      modifies canvas
      ensures (canvas[..], ok) == FullRepaint(f, cols, rows)
    {
      LayWallpaper();
      ghost var wall := canvas[..];
      ghost var scan := ScanOrder(f.viewWidth, f.viewHeight);
      var i, n := 0, 0;
      while i < f.viewHeight
        invariant 0 <= i <= f.viewHeight
        invariant n == i * f.viewWidth && n <= |scan|
        invariant (canvas[..], true) == PaintPoints(f, wall, cols, rows, scan[..n], false)
      {
        NextRow(i, f.viewWidth, f.viewHeight);
        ok := PaintRow(f, wall, i, n);
        if !ok {
          return;
        }
        i, n := i + 1, n + f.viewWidth;
      }
      assert n == |scan| by { assert n == f.viewHeight * f.viewWidth; }
      assert scan[..n] == scan;
      ok := true;
    }

    /** Row i of full mode, the scan positions n to n + ViewWidth - 1: cells
        (0, i) to (ViewWidth - 1, i) in order. */
    method PaintRow(f: Frame, ghost wall: seq<Tile>, i: int, n: int) returns (ok: bool)
      requires 0 <= cols && 0 <= rows && canvas.Length == cols * rows && |wall| == cols * rows
      requires 1 <= f.viewWidth && 0 <= i < f.viewHeight && n == i * f.viewWidth
      requires 0 <= n && n + f.viewWidth <= |ScanOrder(f.viewWidth, f.viewHeight)|
      requires (canvas[..], true) == PaintPoints(f, wall, cols, rows, ScanOrder(f.viewWidth, f.viewHeight)[..n], false)
      modifies canvas
      ensures ok ==> (canvas[..], true) == PaintPoints(f, wall, cols, rows, ScanOrder(f.viewWidth, f.viewHeight)[..n + f.viewWidth], false)
      ensures !ok ==> (canvas[..], false) == PaintPoints(f, wall, cols, rows, ScanOrder(f.viewWidth, f.viewHeight), false)
    {
      ghost var scan := ScanOrder(f.viewWidth, f.viewHeight);
      var j := 0;
      while j < f.viewWidth
        invariant 0 <= j <= f.viewWidth
        invariant (canvas[..], true) == PaintPoints(f, wall, cols, rows, scan[..n + j], false)
      {
        ScanAt(i, j, f.viewWidth, f.viewHeight);
        ok := PaintNext(f, wall, scan, n + j, Point(j, i), false);
        if !ok {
          return;
        }
        j := j + 1;
      }
      ok := true;
    }

    /** Patch mode's painting: the damage points in list order. */
    method PaintDamage(f: Frame, pts: seq<Point>) returns (ok: bool)
      requires 0 <= cols && 0 <= rows && canvas.Length == cols * rows
      modifies canvas
      ensures (canvas[..], ok) == PatchRepaint(f, old(canvas[..]), cols, rows, pts)
    {
      ghost var before := canvas[..];
      var n := 0;
      while n < |pts|
        invariant 0 <= n <= |pts|
        invariant (canvas[..], true) == PaintPoints(f, before, cols, rows, pts[..n], true)
      {
        ok := PaintNext(f, before, pts, n, pts[n], true);
        if !ok {
          return;
        }
        n := n + 1;
      }
      assert pts[..n] == pts;
      ok := true;
    }

    /** Load and ResizeEnd: resize, take the wallpaper behind the window, and
        repaint everything. */
    method OnMoveSize() returns (ok: bool)
      requires Valid()
      modifies this
      ensures Valid() && started && hasWallpaper
      ensures clientWidth == textWidth * (ViewWidth(con.info) + 1) + frameWidth
      ensures clientHeight == textHeight * ViewHeight(con.info) + frameHeight
      ensures cols == ViewWidth(con.info) && rows == ViewHeight(con.info) && fresh(canvas)
      ensures scrollPos == Thumb(scrollArea, ViewY(con.info), ViewHeight(con.info), BufferHeight(con.info), clientHeight)
      ensures (canvas[..], ok) == FullRepaint(con.View(), cols, rows)
      ensures textWidth == old(textWidth) && textHeight == old(textHeight) && scrollArea == old(scrollArea)
    {
      ChangeSize();
      hasWallpaper := true;
      ok := Redraw(None);
    }

    /** The Settings setter: a new font, so a new text cell size, then the
        same resize and full repaint as OnMoveSize without a new wallpaper. */
    method SetSettings(textWidth: int, textHeight: int) returns (ok: bool)
      requires Valid() && textWidth > 0 && textHeight > 0
      modifies this
      ensures Valid() && started && hasWallpaper == old(hasWallpaper)
      ensures this.textWidth == textWidth && this.textHeight == textHeight
      ensures scrollArea == ScrollArea(ViewWidth(con.info), ViewHeight(con.info), textWidth, textHeight)
      ensures clientWidth == textWidth * (ViewWidth(con.info) + 1) + frameWidth
      ensures clientHeight == textHeight * ViewHeight(con.info) + frameHeight
      ensures cols == ViewWidth(con.info) && rows == ViewHeight(con.info) && fresh(canvas)
      ensures hasWallpaper ==> (canvas[..], ok) == FullRepaint(con.View(), cols, rows)
      ensures !hasWallpaper ==> ok && canvas[..] == seq(cols * rows, _ => Blank)
      ensures hasWallpaper ==>
        scrollPos == Thumb(scrollArea, ViewY(con.info), ViewHeight(con.info), BufferHeight(con.info), clientHeight)
      ensures !hasWallpaper ==> scrollPos == old(scrollPos)
    {
      SizeText(textWidth, textHeight);
      ChangeSize();
      ok := Redraw(None);
    }

    /** The 100 ms timer: Refresh, then DamageList, then a full repaint at the
        new size when the geometry changed, or else a Redraw of the damage. */
    method OnRefreshTimer(next: BufferInfo, cells: seq<CharInfo>) returns (changed: bool, damage: seq<Point>, ok: bool)
      requires Valid() && WellFormed(next)
      requires |cells| == ViewWidth(next) * ViewHeight(next)
      modifies this, con, con.screenData, con.oldScreenData, canvas
      ensures Valid()
      ensures con.info == next && con.screenData[..] == cells
      ensures changed <==> GeometryOf(old(con.info)) != GeometryOf(next)
      ensures
        var previous := if Resized(old(con.info), next) then ZeroedGrid(|cells|) else old(con.oldScreenData[..]);
        var track := CursorTrack(Point(old(con.oldCursorX), old(con.oldCursorY)),
                                 Point(next.cursorPosition.x - ViewX(next), next.cursorPosition.y - ViewY(next)),
                                 Blink(old(con.cursorCount), old(con.cursorState)));
        var diff := CellDiff(cells, previous, ViewWidth(next), |cells|);
        && (damage, con.Track()) == DamageUpdate(diff, track, con.settings.cursorBlinkRate)
        && con.oldScreenData[..] == if Idle(diff, track) then previous else cells
      ensures Resized(old(con.info), next) ==> fresh(con.screenData) && fresh(con.oldScreenData)
      ensures !Resized(old(con.info), next) ==>
        con.screenData == old(con.screenData) && con.oldScreenData == old(con.oldScreenData)
      ensures hasWallpaper == old(hasWallpaper)
      ensures textWidth == old(textWidth) && textHeight == old(textHeight) && scrollArea == old(scrollArea)
      ensures changed ==>
        && started && cols == ViewWidth(next) && rows == ViewHeight(next) && fresh(canvas)
        && clientWidth == textWidth * (ViewWidth(next) + 1) + frameWidth
        && clientHeight == textHeight * ViewHeight(next) + frameHeight
      ensures !changed ==>
        && started == old(started) && cols == old(cols) && rows == old(rows) && canvas == old(canvas)
        && clientWidth == old(clientWidth) && clientHeight == old(clientHeight)
      ensures scrollPos ==
        if hasWallpaper && (changed || FullMode(Some(damage), ViewWidth(next)))
        then Thumb(scrollArea, ViewY(next), ViewHeight(next), BufferHeight(next), clientHeight)
        else old(scrollPos)
      ensures !hasWallpaper ==> ok && canvas[..] == if changed then seq(cols * rows, _ => Blank) else old(canvas[..])
      ensures hasWallpaper && changed ==> (canvas[..], ok) == FullRepaint(con.View(), cols, rows)
      ensures hasWallpaper && !changed ==>
        (canvas[..], ok) == if FullMode(Some(damage), ViewWidth(next)) then FullRepaint(con.View(), cols, rows)
                            else PatchRepaint(con.View(), old(canvas[..]), cols, rows, damage)
    {
      changed, damage := Poll(next, cells);
      ok := Repaint(changed, damage);
    }

    /** The console half of a timer tick: Refresh, then DamageList. */
    method Poll(next: BufferInfo, cells: seq<CharInfo>) returns (changed: bool, damage: seq<Point>)
      requires Valid() && WellFormed(next)
      requires |cells| == ViewWidth(next) * ViewHeight(next)
      modifies con, con.screenData, con.oldScreenData
      ensures Valid()
      ensures con.info == next && con.screenData[..] == cells
      ensures changed <==> GeometryOf(old(con.info)) != GeometryOf(next)
      ensures
        var previous := if Resized(old(con.info), next) then ZeroedGrid(|cells|) else old(con.oldScreenData[..]);
        var track := CursorTrack(Point(old(con.oldCursorX), old(con.oldCursorY)),
                                 Point(next.cursorPosition.x - ViewX(next), next.cursorPosition.y - ViewY(next)),
                                 Blink(old(con.cursorCount), old(con.cursorState)));
        var diff := CellDiff(cells, previous, ViewWidth(next), |cells|);
        && (damage, con.Track()) == DamageUpdate(diff, track, con.settings.cursorBlinkRate)
        && con.oldScreenData[..] == if Idle(diff, track) then previous else cells
      ensures Resized(old(con.info), next) ==> fresh(con.screenData) && fresh(con.oldScreenData)
      ensures !Resized(old(con.info), next) ==>
        con.screenData == old(con.screenData) && con.oldScreenData == old(con.oldScreenData)
    {
      changed := con.Refresh(next, cells);
      damage := con.DamageList();
    }

    /** The window half of a timer tick: on a geometry change resize and
        repaint everything, otherwise redraw the damage. */
    method Repaint(changed: bool, damage: seq<Point>) returns (ok: bool)
      requires Valid()
      modifies this`clientWidth, this`clientHeight, this`canvas, this`cols, this`rows, this`started,
               this`scrollPos, canvas
      ensures Valid()
      ensures changed ==>
        && started && cols == ViewWidth(con.info) && rows == ViewHeight(con.info) && fresh(canvas)
        && clientWidth == textWidth * (ViewWidth(con.info) + 1) + frameWidth
        && clientHeight == textHeight * ViewHeight(con.info) + frameHeight
      ensures !changed ==>
        && started == old(started) && cols == old(cols) && rows == old(rows) && canvas == old(canvas)
        && clientWidth == old(clientWidth) && clientHeight == old(clientHeight)
      ensures scrollPos ==
        if hasWallpaper && (changed || FullMode(Some(damage), ViewWidth(con.info)))
        then Thumb(scrollArea, ViewY(con.info), ViewHeight(con.info), BufferHeight(con.info), clientHeight)
        else old(scrollPos)
      ensures !hasWallpaper ==> ok && canvas[..] == if changed then seq(cols * rows, _ => Blank) else old(canvas[..])
      ensures hasWallpaper && changed ==> (canvas[..], ok) == FullRepaint(con.View(), cols, rows)
      ensures hasWallpaper && !changed ==>
        (canvas[..], ok) == if FullMode(Some(damage), ViewWidth(con.info)) then FullRepaint(con.View(), cols, rows)
                            else PatchRepaint(con.View(), old(canvas[..]), cols, rows, damage)
    {
      if changed {
        ChangeSize();
        ok := Redraw(None);
      } else {
        ok := Redraw(Some(damage));
      }
    }

    /** A click in the scroll column above the last thumb height scrolls the
        console to Y / (ClientHeight - thumb height) of its scroll range.
        The fraction is not clamped. The window is not repainted here. */
    method OnClick(x: int, y: int, next: BufferInfo, cells: seq<CharInfo>) returns (request: Option<SmallRect>)
      requires Valid() && WellFormed(next)
      requires |cells| == ViewWidth(next) * ViewHeight(next)
      modifies con, con.screenData
      ensures Valid()
      ensures
        var a := Click(x, y, ViewWidth(old(con.info)), ViewHeight(old(con.info)), textWidth, textHeight,
                       clientHeight, scrollPos);
        && (a.Scroll? ==>
              && request == Some(ScrollRequest(old(con.info).window, BufferHeight(old(con.info)),
                                               ViewHeight(old(con.info)), a.fraction))
              && con.info == next && con.screenData[..] == cells)
        && (a.Scroll? ==>
              && con.newCursorX == next.cursorPosition.x - ViewX(next)
              && con.newCursorY == next.cursorPosition.y - ViewY(next)
              && con.oldCursorX == old(con.oldCursorX) && con.oldCursorY == old(con.oldCursorY)
              && con.cursorCount == old(con.cursorCount) && con.cursorState == old(con.cursorState)
              && (Resized(old(con.info), next) ==>
                    fresh(con.screenData) && fresh(con.oldScreenData)
                    && con.oldScreenData[..] == ZeroedGrid(|cells|))
              && (!Resized(old(con.info), next) ==>
                    con.screenData == old(con.screenData) && con.oldScreenData == old(con.oldScreenData)
                    && con.oldScreenData[..] == old(con.oldScreenData[..])))
        && (!a.Scroll? ==>
              && request == None && unchanged(con)
              && con.screenData[..] == old(con.screenData[..])
              && con.oldScreenData[..] == old(con.oldScreenData[..]))
    {
      var a := Click(x, y, ViewWidth(con.info), ViewHeight(con.info), textWidth, textHeight, clientHeight, scrollPos);
      if a.Scroll? {
        var r := con.ScrollTo(a.fraction, next, cells);
        request := Some(r);
      } else {
        request := None;
      }
    }
  }
}
