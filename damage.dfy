/** The specification of Console.DamageList (src/Console.cs:191-236): the
    row-major diff of the current grid against the previous one, and the
    cursor state machine that runs after it. */
module Damage {
  import opened NativeMethods

  /** Grid coordinate of row-major index k in a grid `width` cells wide. */
  function PointOf(k: int, width: int): Point
    requires width > 0
  {
    Point(k % width, k / width)
  }

  /** Row-major index of a grid coordinate. */
  function IndexOf(p: Point, width: int): int {
    p.y * width + p.x
  }

  /** Index i*width + j, column j of row i, names point (j, i). */
  lemma ScanPoint(i: int, j: int, width: int)
    requires width > 0 && 0 <= i && 0 <= j < width
    ensures PointOf(i * width + j, width) == Point(j, i)
  {
    var k := i * width + j;
    var q, r := k / width, k % width;
    assert k == q * width + r;
    assert (i - q) * width == r - j;
    if i > q {
      assert (i - q) * width >= width by { MulAtLeast(i - q, width); }
    } else if i < q {
      assert (q - i) * width >= width by { MulAtLeast(q - i, width); }
    }
  }

  lemma MulAtLeast(a: int, w: int)
    requires a >= 1 && w > 0
    ensures a * w >= w
  {
  }

  /** A point in the grid's columns, at a non-negative index, round-trips. */
  lemma IndexOfPointOf(k: int, width: int)
    requires width > 0 && 0 <= k
    ensures 0 <= PointOf(k, width).x < width
    ensures IndexOf(PointOf(k, width), width) == k
  {
  }

  lemma PointOfIndexOf(p: Point, width: int)
    requires width > 0 && 0 <= p.x < width && 0 <= IndexOf(p, width)
    ensures PointOf(IndexOf(p, width), width) == p
  {
    ScanPoint(p.y, p.x, width);
  }

  /** The cell part of the damage list: the coordinates of the first n cells,
      in scan order, whose CHAR_INFO differs between the two grids. */
  function CellDiff(cur: seq<CharInfo>, prev: seq<CharInfo>, width: int, n: nat): (pts: seq<Point>)
    requires width > 0 && n <= |cur| && n <= |prev|
    decreases n
  {
    if n == 0 then []
    else
      CellDiff(cur, prev, width, n - 1)
      + (if cur[n - 1] != prev[n - 1] then [PointOf(n - 1, width)] else [])
  }

  /** One more cell extends the diff by that cell's point when it differs. */
  lemma CellDiffStep(cur: seq<CharInfo>, prev: seq<CharInfo>, width: int, n: nat)
    requires width > 0 && n < |cur| && n < |prev|
    ensures CellDiff(cur, prev, width, n + 1)
         == CellDiff(cur, prev, width, n) + (if cur[n] != prev[n] then [PointOf(n, width)] else [])
  {
  }

  /** A point is reported exactly when it names a differing cell among the first n. */
  lemma {:induction false} CellDiffMembers(cur: seq<CharInfo>, prev: seq<CharInfo>, width: int, n: nat, p: Point)
    requires width > 0 && n <= |cur| && n <= |prev|
    ensures p in CellDiff(cur, prev, width, n) <==>
      (0 <= p.x < width && 0 <= IndexOf(p, width) < n
       && cur[IndexOf(p, width)] != prev[IndexOf(p, width)])
  {
    if n > 0 {
      CellDiffMembers(cur, prev, width, n - 1, p);
      IndexOfPointOf(n - 1, width);
      if 0 <= p.x < width && 0 <= IndexOf(p, width) {
        PointOfIndexOf(p, width);
      }
    }
  }

  /** Strictly increasing row-major indices: scan order, no point twice. */
  predicate ScanOrdered(pts: seq<Point>, width: int) {
    forall a, b :: 0 <= a < b < |pts| ==> IndexOf(pts[a], width) < IndexOf(pts[b], width)
  }

  /** Points come out in strictly increasing row-major order, so each cell at most once. */
  lemma {:induction false} CellDiffScanOrder(cur: seq<CharInfo>, prev: seq<CharInfo>, width: int, n: nat)
    requires width > 0 && n <= |cur| && n <= |prev|
    ensures ScanOrdered(CellDiff(cur, prev, width, n), width)
  {
    if n > 0 {
      CellDiffScanOrder(cur, prev, width, n - 1);
      var pre := CellDiff(cur, prev, width, n - 1);
      var pts := CellDiff(cur, prev, width, n);
      IndexOfPointOf(n - 1, width);
      forall a | 0 <= a < |pre|
        ensures IndexOf(pre[a], width) < n - 1
      {
        CellDiffMembers(cur, prev, width, n - 1, pre[a]);
      }
      assert forall a :: 0 <= a < |pre| ==> pts[a] == pre[a];
      if |pts| > |pre| {
        assert pts[|pre|] == PointOf(n - 1, width);
      }
      forall a, b | 0 <= a < b < |pts|
        ensures IndexOf(pts[a], width) < IndexOf(pts[b], width)
      {
        if b < |pre| {
          assert IndexOf(pre[a], width) < IndexOf(pre[b], width);
        }
      }
    }
  }

  /** No cell is reported exactly when the first n cells of both grids agree. */
  lemma {:induction false} CellDiffEmpty(cur: seq<CharInfo>, prev: seq<CharInfo>, width: int, n: nat)
    requires width > 0 && n <= |cur| && n <= |prev|
    ensures CellDiff(cur, prev, width, n) == [] <==> cur[..n] == prev[..n]
  {
    if n > 0 {
      CellDiffEmpty(cur, prev, width, n - 1);
      assert cur[..n] == cur[..n - 1] + [cur[n - 1]];
      assert prev[..n] == prev[..n - 1] + [prev[n - 1]];
      if cur[..n] == prev[..n] {
        assert cur[..n - 1] == cur[..n][..n - 1];
        assert prev[..n - 1] == prev[..n][..n - 1];
        assert cur[n - 1] == cur[..n][n - 1];
      }
    }
  }

  // ---------------------------------------------------------------------
  // Cursor blink

  /** The blink countdown (cursorCount) and phase (cursorState). */
  datatype Blink = Blink(count: int, visible: bool)

  /** One blink step: decrement the count; once it drops below one, reload it
      with the blink rate and flip the phase. */
  function BlinkStep(b: Blink, rate: int): (r: Blink)
    ensures r.visible != b.visible <==> b.count <= 1
    ensures r.count == if b.count <= 1 then rate else b.count - 1
    ensures 1 <= rate && 0 <= b.count <= rate ==> 1 <= r.count <= rate
    ensures r.visible != b.visible ==> r.count == rate
  {
    if b.count - 1 < 1 then Blink(rate, !b.visible) else Blink(b.count - 1, b.visible)
  }

  /** The blink state after n non-idle DamageList calls. */
  function BlinkAfter(b: Blink, rate: int, n: nat): Blink
    decreases n
  {
    if n == 0 then b else BlinkStep(BlinkAfter(b, rate, n - 1), rate)
  }

  /** The countdown stays in 1..rate once it has run at least once from its
      initial 0 (or from any count in 0..rate): the count DamageList keeps is
      always a valid position in the blink period. */
  lemma {:induction false} BlinkAfterInRange(b: Blink, rate: int, n: nat)
    requires 1 <= rate && 0 <= b.count <= rate
    ensures 0 <= BlinkAfter(b, rate, n).count <= rate
    ensures n >= 1 ==> 1 <= BlinkAfter(b, rate, n).count
    decreases n
  {
    if n > 0 {
      BlinkAfterInRange(b, rate, n - 1);
    }
  }

  /** Before the countdown runs out the phase holds and the count drops by one a call. */
  lemma {:induction false} BlinkCountsDown(b: Blink, rate: int, k: nat)
    requires k < b.count
    ensures BlinkAfter(b, rate, k) == Blink(b.count - k, b.visible)
  {
    if k > 0 {
      BlinkCountsDown(b, rate, k - 1);
    }
  }

  /** The call that takes the countdown below one flips the phase and reloads the count. */
  lemma BlinkFlips(b: Blink, rate: int)
    requires 1 <= b.count
    ensures BlinkAfter(b, rate, b.count) == Blink(rate, !b.visible)
  {
    BlinkCountsDown(b, rate, b.count - 1);
  }

  lemma {:induction false} BlinkAfterAdds(b: Blink, rate: int, m: nat, n: nat)
    ensures BlinkAfter(b, rate, m + n) == BlinkAfter(BlinkAfter(b, rate, m), rate, n)
    decreases n
  {
    if n > 0 {
      BlinkAfterAdds(b, rate, m, n - 1);
    }
  }

  /** From a freshly reloaded count, the phase flips once every `rate` calls:
      after m*rate calls it has flipped m times. */
  lemma BlinkPeriod(visible: bool, rate: int, m: nat)
    requires rate >= 1
    ensures BlinkAfter(Blink(rate, visible), rate, m * rate)
         == Blink(rate, if m % 2 == 0 then visible else !visible)
  {
    BlinkPeriods(visible, rate, m);
    PeriodCallsIsProduct(rate, m);
  }

  /** m periods of `rate` calls, counted by repeated addition. */
  function PeriodCalls(rate: nat, m: nat): nat {
    if m == 0 then 0 else PeriodCalls(rate, m - 1) + rate
  }

  lemma {:induction false} PeriodCallsIsProduct(rate: nat, m: nat)
    ensures PeriodCalls(rate, m) == m * rate
  {
    if m > 0 {
      PeriodCallsIsProduct(rate, m - 1);
    }
  }

  lemma {:induction false} BlinkPeriods(visible: bool, rate: int, m: nat)
    requires rate >= 1
    ensures BlinkAfter(Blink(rate, visible), rate, PeriodCalls(rate, m))
         == Blink(rate, if m % 2 == 0 then visible else !visible)
  {
    if m > 0 {
      BlinkPeriods(visible, rate, m - 1);
      var n := PeriodCalls(rate, m - 1);
      BlinkAfterAdds(Blink(rate, visible), rate, n, rate);
      BlinkFlips(Blink(rate, if (m - 1) % 2 == 0 then visible else !visible), rate);
    }
  }

  // ---------------------------------------------------------------------
  // The cursor part of DamageList

  /** The cursor state DamageList carries from call to call. */
  datatype CursorTrack = CursorTrack(oldCursor: Point, newCursor: Point, blink: Blink)

  /** The idle path: nothing differs, the cursor has not moved and it is visible. */
  predicate Idle(cellPts: seq<Point>, t: CursorTrack) {
    cellPts == [] && t.blink.visible && t.oldCursor == t.newCursor
  }

  /** Damage list and next cursor state, given the cell part of the diff. */
  function DamageUpdate(cellPts: seq<Point>, t: CursorTrack, rate: int): (r: (seq<Point>, CursorTrack))
    ensures Idle(cellPts, t) ==> r == ([], t)
    ensures !Idle(cellPts, t) ==>
      && |r.0| == |cellPts| + (if t.oldCursor != t.newCursor then 2 else 1)
      && r.0[..|cellPts|] == cellPts
      && r.0[|r.0| - 1] == t.newCursor
      && (t.oldCursor != t.newCursor ==> r.0[|r.0| - 2] == t.oldCursor)
      && r.1 == CursorTrack(t.newCursor, t.newCursor, BlinkStep(t.blink, rate))
  {
    if Idle(cellPts, t) then ([], t)
    else
      var moved := if t.oldCursor != t.newCursor then [t.oldCursor] else [];
      (cellPts + moved + [t.newCursor],
       CursorTrack(t.newCursor, t.newCursor, BlinkStep(t.blink, rate)))
  }

  /** Once a non-idle call has copied the grid and caught up with the cursor,
      calling again on the same grid reports no cell: at most the cursor point. */
  lemma RepeatReportsOnlyCursor(cellPts: seq<Point>, t: CursorTrack, rate: int,
                                cur: seq<CharInfo>, width: int)
    requires width > 0 && !Idle(cellPts, t)
    ensures var t' := DamageUpdate(cellPts, t, rate).1;
      var again := DamageUpdate(CellDiff(cur, cur, width, |cur|), t', rate).0;
      again == [] || again == [t.newCursor]
  {
    CellDiffEmpty(cur, cur, width, |cur|);
  }

  /** The 10x2 scenario: only cell (3,1) changed, the cursor sits still at (0,0)
      and is visible, so the damage is that cell followed by the cursor cell. */
  lemma TenByTwoScenario(prev: seq<CharInfo>, c: CharInfo, t: CursorTrack, rate: int)
    requires |prev| == 20 && c != prev[13]
    requires t.oldCursor == t.newCursor == Point(0, 0) && t.blink.visible
    ensures var cur := prev[13 := c];
      DamageUpdate(CellDiff(cur, prev, 10, 20), t, rate).0 == [Point(3, 1), Point(0, 0)]
  {
    var cur := prev[13 := c];
    assert cur[..13] == prev[..13];
    CellDiffEmpty(cur, prev, 10, 13);
    assert CellDiff(cur, prev, 10, 14) == [Point(3, 1)];
    assert CellDiff(cur, prev, 10, 15) == [Point(3, 1)];
    assert CellDiff(cur, prev, 10, 16) == [Point(3, 1)];
    assert CellDiff(cur, prev, 10, 17) == [Point(3, 1)];
    assert CellDiff(cur, prev, 10, 18) == [Point(3, 1)];
    assert CellDiff(cur, prev, 10, 19) == [Point(3, 1)];
    assert CellDiff(cur, prev, 10, 20) == [Point(3, 1)];
  }
}
