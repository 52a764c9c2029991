/** The Console class (src/Console.cs): the two cell grids, the geometry last
    read from the console host, and the cursor-blink state DamageList keeps
    between timer ticks. What the host returns (GetConsoleScreenBufferInfo,
    ReadConsoleOutput) arrives as method parameters. */
module ConsoleBuffer {
  import opened NativeMethods
  import opened ConsoleView
  import opened Damage
  import opened Scrolling

  /** The view width or height differs between the two geometries. */
  predicate Resized(before: BufferInfo, after: BufferInfo) {
    ViewWidth(before) != ViewWidth(after) || ViewHeight(before) != ViewHeight(after)
  }

  /** A grid of n zeroed CHAR_INFO cells, as a fresh C# array holds. */
  function ZeroedGrid(n: nat): seq<CharInfo> {
    seq(n, _ => EmptyCell)
  }

  /** After a resize the previous grid is zeroed, so the next diff reports
      exactly the cells that are not the zeroed cell. */
  lemma ResizeReportsNonEmptyCells(cells: seq<CharInfo>, width: int, p: Point)
    requires width > 0
    ensures p in CellDiff(cells, ZeroedGrid(|cells|), width, |cells|) <==>
      (0 <= p.x < width && 0 <= IndexOf(p, width) < |cells| && cells[IndexOf(p, width)] != EmptyCell)
  {
    CellDiffMembers(cells, ZeroedGrid(|cells|), width, |cells|, p);
  }

  /** A freshly allocated grid of n cells: C# zero-initialises it. */
  method NewGrid(n: nat) returns (a: array<CharInfo>)
    ensures fresh(a) && a[..] == ZeroedGrid(n)
  {
    a := new CharInfo[n](_ => EmptyCell);
    assert a[..] == ZeroedGrid(n);
  }

  /** Copy a grid cell by cell into an array of the same length. */
  method CopyCells(dst: array<CharInfo>, src: seq<CharInfo>)
    requires dst.Length == |src|
    modifies dst
    ensures dst[..] == src
  {
    var i := 0;
    while i < dst.Length
      invariant 0 <= i <= dst.Length
      invariant dst[..i] == src[..i]
    {
      dst[i] := src[i];
      i := i + 1;
    }
    assert dst[..] == dst[..i];
  }

  /** The first half of DamageList: the points (j, i) of the cells whose
      contents differ between two grids vw cells wide and vh rows tall,
      visited row by row. */
  method ChangedCells(cur: array<CharInfo>, prev: array<CharInfo>, vw: int, vh: int) returns (pts: seq<Point>)
    requires 0 < vw && 0 <= vh && cur.Length == vw * vh && prev.Length == cur.Length
    ensures pts == CellDiff(cur[..], prev[..], vw, cur.Length)
  {
    pts := [];
    var i, row := 0, 0;
    while i < vh
      invariant 0 <= i <= vh
      invariant row == i * vw && row <= cur.Length
      invariant pts == CellDiff(cur[..], prev[..], vw, row)
    {
      RowMajorInRange(i, vw - 1, vw, vh);
      pts := DiffRow(cur, prev, vw, i, row, pts);
      assert row + vw == (i + 1) * vw;
      i, row := i + 1, row + vw;
    }
    assert row == cur.Length by { assert row == vh * vw; }
  }

  /** One row of the scan: extend the diff by the row's differing cells,
      left to right. */
  method DiffRow(cur: array<CharInfo>, prev: array<CharInfo>, vw: int, i: int, row: int, pts: seq<Point>)
    returns (r: seq<Point>)
    requires 0 < vw && 0 <= i && row == i * vw
    requires row + vw <= cur.Length && prev.Length == cur.Length
    requires pts == CellDiff(cur[..], prev[..], vw, row)
    ensures r == CellDiff(cur[..], prev[..], vw, row + vw)
  {
    r := pts;
    var j := 0;
    while j < vw
      invariant 0 <= j <= vw
      invariant r == CellDiff(cur[..], prev[..], vw, row + j)
    {
      ScanPoint(i, j, vw);
      CellDiffStep(cur[..], prev[..], vw, row + j);
      if cur[row + j] != prev[row + j] {
        r := r + [Point(j, i)];
      }
      j := j + 1;
    }
  }

  class Console {
    const settings: ConsoleSettings
    var info: BufferInfo
    var screenData: array<CharInfo>
    var oldScreenData: array<CharInfo>
    var cursorState: bool
    var cursorCount: int
    var newCursorX: int
    var newCursorY: int
    var oldCursorX: int
    var oldCursorY: int

    /** Both grids hold one cell per view cell, and are distinct arrays. */
    ghost predicate Valid()
      reads this
    {
      && WellFormed(info)
      && SettingsValid(settings)
      && screenData != oldScreenData
      && screenData.Length == ViewWidth(info) * ViewHeight(info)
      && oldScreenData.Length == screenData.Length
    }

    /** What the cell accessors read. */
    function View(): Frame
      reads this, screenData
    {
      Frame(screenData[..], ViewWidth(info), ViewHeight(info), BufferWidth(info),
            newCursorX, newCursorY, cursorState, settings.cursorFore, settings.cursorBack)
    }

    /** The cursor state DamageList carries between calls. */
    function Track(): CursorTrack
      reads this
    {
      CursorTrack(Point(oldCursorX, oldCursorY), Point(newCursorX, newCursorY),
                  Blink(cursorCount, cursorState))
    }

    /** The constructor reads the geometry (`first`), allocates zeroed grids of
        that view size, and then runs Refresh against the host's next answer. */
    constructor (settings: ConsoleSettings, first: BufferInfo, next: BufferInfo, cells: seq<CharInfo>)
      requires SettingsValid(settings) && WellFormed(first) && WellFormed(next)
      requires |cells| == ViewWidth(next) * ViewHeight(next)
      ensures Valid() && fresh(screenData) && fresh(oldScreenData)
      ensures this.settings == settings && info == next
      ensures screenData[..] == cells && oldScreenData[..] == ZeroedGrid(|cells|)
      ensures Track() == CursorTrack(Point(0, 0), Point(next.cursorPosition.x - ViewX(next),
                                                        next.cursorPosition.y - ViewY(next)), Blink(0, false))
    {
      this.settings := settings;
      info := first;
      var n := ViewHeight(first) * ViewWidth(first);
      ViewFitsBuffer(first);
      var cur := NewGrid(n);
      var prev := NewGrid(n);
      screenData, oldScreenData := cur, prev;
      cursorState, cursorCount := false, 0;
      newCursorX, newCursorY, oldCursorX, oldCursorY := 0, 0, 0, 0;
      new;
      var _ := Refresh(next, cells);
    }

    /** Take the host's new geometry and cell contents. Reports whether any of
        BufferWidth, BufferHeight, ViewX, ViewY, ViewWidth or ViewHeight
        changed; reallocates both grids, the previous one zeroed, exactly when
        the view size changed. */
    method Refresh(next: BufferInfo, cells: seq<CharInfo>) returns (changed: bool)
      requires Valid() && WellFormed(next)
      requires |cells| == ViewWidth(next) * ViewHeight(next)
      modifies this, screenData
      ensures Valid()
      ensures info == next
      ensures changed <==> GeometryOf(old(info)) != GeometryOf(next)
      ensures screenData[..] == cells
      ensures Resized(old(info), next) ==>
        fresh(screenData) && fresh(oldScreenData) && oldScreenData[..] == ZeroedGrid(|cells|)
      ensures !Resized(old(info), next) ==>
        screenData == old(screenData) && oldScreenData == old(oldScreenData)
        && oldScreenData[..] == old(oldScreenData[..])
      ensures newCursorX == next.cursorPosition.x - ViewX(next)
      ensures newCursorY == next.cursorPosition.y - ViewY(next)
      ensures oldCursorX == old(oldCursorX) && oldCursorY == old(oldCursorY)
      ensures cursorCount == old(cursorCount) && cursorState == old(cursorState)
    {
      var before := GeometryOf(info);
      info := next;
      newCursorX := info.cursorPosition.x - ViewX(info);
      newCursorY := info.cursorPosition.y - ViewY(info);
      changed := before != GeometryOf(info);
      if before.viewWidth != ViewWidth(info) || before.viewHeight != ViewHeight(info) {
        ViewFitsBuffer(info);
        var n := ViewHeight(info) * ViewWidth(info);
        screenData := NewGrid(n);
        oldScreenData := NewGrid(n);
      }
      CopyCells(screenData, cells);
    }

    /** Diff the grids in row-major order, then run the cursor state machine
        and, unless idle, copy the current grid into the previous one. The
        result and the new cursor state are DamageUpdate of the cell diff. */
    method DamageList() returns (pts: seq<Point>)
      requires Valid()
      modifies this`cursorState, this`cursorCount, this`oldCursorX, this`oldCursorY, oldScreenData
      ensures Valid()
      ensures (pts, Track()) == DamageUpdate(
        CellDiff(screenData[..], old(oldScreenData[..]), ViewWidth(info), screenData.Length),
        old(Track()), settings.cursorBlinkRate)
      ensures screenData[..] == old(screenData[..])
      ensures oldScreenData[..] ==
        if Idle(CellDiff(screenData[..], old(oldScreenData[..]), ViewWidth(info), screenData.Length), old(Track()))
        then old(oldScreenData[..]) else screenData[..]
    {
      ViewFitsBuffer(info);
      pts := ChangedCells(screenData, oldScreenData, ViewWidth(info), ViewHeight(info));
      ghost var cellPts := pts;
      ghost var t := Track();
      if |pts| > 0 || !cursorState || oldCursorX != newCursorX || oldCursorY != newCursorY {
        if oldCursorX != newCursorX || oldCursorY != newCursorY {
          pts := pts + [Point(oldCursorX, oldCursorY)];
        }
        cursorCount := cursorCount - 1;
        if cursorCount < 1 {
          cursorCount := settings.cursorBlinkRate;
          cursorState := !cursorState;
        }
        pts := pts + [Point(newCursorX, newCursorY)];
        oldCursorX := newCursorX;
        oldCursorY := newCursorY;
        CopyCells(oldScreenData, screenData[..]);
        assert !Idle(cellPts, t);
      } else {
        assert Idle(cellPts, t);
      }
    }

    /** Ask the host to move the window to `percentage` of the scroll range,
        then Refresh against the host's answer. */
    method ScrollTo(percentage: real, next: BufferInfo, cells: seq<CharInfo>) returns (request: SmallRect)
      requires Valid() && WellFormed(next)
      requires |cells| == ViewWidth(next) * ViewHeight(next)
      modifies this, screenData
      ensures Valid()
      ensures request == ScrollRequest(old(info).window, BufferHeight(old(info)), ViewHeight(old(info)), percentage)
      ensures 0.0 <= percentage <= 1.0 ==>
        && 0 <= request.top <= BufferHeight(old(info)) - ViewHeight(old(info))
        && request.bottom - request.top + 1 == ViewHeight(old(info))
      ensures info == next && screenData[..] == cells
      ensures Resized(old(info), next) ==>
        fresh(screenData) && fresh(oldScreenData) && oldScreenData[..] == ZeroedGrid(|cells|)
      ensures !Resized(old(info), next) ==>
        screenData == old(screenData) && oldScreenData == old(oldScreenData)
        && oldScreenData[..] == old(oldScreenData[..])
      ensures newCursorX == next.cursorPosition.x - ViewX(next)
      ensures newCursorY == next.cursorPosition.y - ViewY(next)
      ensures oldCursorX == old(oldCursorX) && oldCursorY == old(oldCursorY)
      ensures cursorCount == old(cursorCount) && cursorState == old(cursorState)
    {
      ViewFitsBuffer(info);
      request := ScrollRequest(info.window, BufferHeight(info), ViewHeight(info), percentage);
      if 0.0 <= percentage <= 1.0 {
        ScrollStaysInBuffer(info.window, BufferHeight(info), ViewHeight(info), percentage);
      }
      var _ := Refresh(next, cells);
    }
  }
}
