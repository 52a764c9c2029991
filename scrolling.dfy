/** The scroll arithmetic: Console.ScrollTo's top-row computation
    (src/Console.cs:328-336), the thumb rectangle Redraw computes
    (src/ConWindow.cs:194-198), and OnClick's hit test and scroll fraction
    (src/ConWindow.cs:342-350). Single-precision floats are modelled as reals. */
module Scrolling {
  import opened NativeMethods

  /** C#'s `(int)` conversion of a floating value: truncation toward zero. */
  function Trunc(r: real): (n: int)
    ensures 0.0 <= r ==> n as real <= r < n as real + 1.0
    ensures r < 0.0 ==> n as real - 1.0 < r <= n as real
  {
    if r >= 0.0 then r.Floor else -((-r).Floor)
  }

  /** ScrollTo's new top row: the scroll range times the fraction, truncated. */
  function ScrollTop(bufferHeight: int, viewHeight: int, percentage: real): int {
    Trunc((bufferHeight - viewHeight) as real * percentage)
  }

  /** The window rectangle ScrollTo asks the console host for: the current one
      with Top and Bottom replaced, each through a `(short)` cast. */
  function ScrollRequest(window: SmallRect, bufferHeight: int, viewHeight: int, percentage: real): SmallRect {
    var newTop := ScrollTop(bufferHeight, viewHeight, percentage);
    window.(top := ToShort(newTop), bottom := ToShort(newTop + viewHeight - 1))
  }

  /** For a fraction in [0, 1] the requested window keeps the view height, keeps
      its columns and lies inside the buffer. */
  lemma ScrollStaysInBuffer(window: SmallRect, bufferHeight: int, viewHeight: int, percentage: real)
    requires 1 <= viewHeight <= bufferHeight <= SHORT_MAX
    requires 0.0 <= percentage <= 1.0
    ensures var r := ScrollRequest(window, bufferHeight, viewHeight, percentage);
      && r.left == window.left && r.right == window.right
      && 0 <= r.top <= bufferHeight - viewHeight
      && r.bottom - r.top + 1 == viewHeight
      && r.bottom < bufferHeight
  {
    var d := (bufferHeight - viewHeight) as real;
    var v := d * percentage;
    assert 0.0 <= v <= d by {
      assert d * (1.0 - percentage) >= 0.0;
    }
    var newTop := ScrollTop(bufferHeight, viewHeight, percentage);
    assert newTop == Trunc(v);
    assert 0 <= newTop <= bufferHeight - viewHeight;
    assert ToShort(newTop) == newTop;
    assert ToShort(newTop + viewHeight - 1) == newTop + viewHeight - 1;
  }

  /** The fraction is not clamped: twice the scroll range puts the top row past
      the last row a full view can start at. */
  lemma ScrollIsNotClamped(bufferHeight: int, viewHeight: int, percentage: real)
    requires viewHeight < bufferHeight && 2.0 <= percentage
    ensures ScrollTop(bufferHeight, viewHeight, percentage) > bufferHeight - viewHeight
  {
    var d := (bufferHeight - viewHeight) as real;
    assert d * percentage >= 2.0 * d by {
      assert d * (percentage - 2.0) >= 0.0;
    }
  }

  datatype RectF = RectF(left: real, top: real, width: real, height: real)

  /** SizeText's scrollbar column: one text cell wide, right of the text. */
  function ScrollArea(viewWidth: int, viewHeight: int, textWidth: int, textHeight: int): RectF {
    RectF((viewWidth * textWidth) as real, 0.0, textWidth as real, (viewHeight * textHeight) as real)
  }

  /** The scroll thumb: ViewY / BufferHeight of the client height down the
      scroll column, ViewHeight / BufferHeight of it tall. */
  function Thumb(area: RectF, viewY: int, viewHeight: int, bufferHeight: int, clientHeight: int): RectF
    requires bufferHeight != 0
  {
    RectF(area.left,
          viewY as real / bufferHeight as real * clientHeight as real,
          area.width,
          viewHeight as real / bufferHeight as real * clientHeight as real)
  }

  /** A view inside its buffer gives a thumb inside the client height,
      in the column of the scroll area. */
  lemma ThumbWithinClient(area: RectF, viewY: int, viewHeight: int, bufferHeight: int, clientHeight: int)
    requires 0 <= viewY && 0 <= viewHeight && viewY + viewHeight <= bufferHeight && bufferHeight > 0
    requires 0 <= clientHeight
    ensures var t := Thumb(area, viewY, viewHeight, bufferHeight, clientHeight);
      && t.left == area.left && t.width == area.width
      && 0.0 <= t.top && 0.0 <= t.height
      && t.top + t.height <= clientHeight as real
  {
    var y, h, b, c := viewY as real, viewHeight as real, bufferHeight as real, clientHeight as real;
    ScaledRatio(y, b, c);
    ScaledRatio(h, b, c);
    ScaledRatio(y + h, b, c);
    SumOfRatios(y, h, b, c);
    var t := Thumb(area, viewY, viewHeight, bufferHeight, clientHeight);
    assert t.top == y / b * c && t.height == h / b * c;
    assert t.top + t.height == (y + h) / b * c;
    assert (y + h) / b * c <= c;
    assert t.top + t.height <= c;
  }

  /** A fraction a/b of c, with 0 <= a <= b, lies between 0 and c. */
  lemma ScaledRatio(a: real, b: real, c: real)
    requires 0.0 <= a <= b && 0.0 < b && 0.0 <= c
    ensures 0.0 <= a / b * c <= c
  {
    assert a / b <= 1.0;
    assert (1.0 - a / b) * c >= 0.0;
  }

  lemma SumOfRatios(a: real, d: real, b: real, c: real)
    requires b != 0.0
    ensures a / b * c + d / b * c == (a + d) / b * c
  {
    assert a / b + d / b == (a + d) / b;
  }

  /** OnClick's fraction: the click's Y over the client height less the thumb height. */
  function ScrollFraction(y: real, clientHeight: int, thumbHeight: real): (p: real)
    requires clientHeight as real != thumbHeight
    ensures p * (clientHeight as real - thumbHeight) == y
    ensures 0.0 <= y < clientHeight as real - thumbHeight ==> 0.0 <= p < 1.0
  {
    var d := clientHeight as real - thumbHeight;
    if 0.0 <= y < d then FractionBelowOne(y, d); y / d else y / d
  }

  /** What a mouse click on the window does. */
  datatype ClickAction =
    | Ignore
    | Scroll(fraction: real)
      /** the hit test passes but the fraction divides by zero (an IEEE
          infinity or NaN in the source) */
    | ScrollUndefined

  /** OnClick's hit test: right of the text columns, and above the point one
      thumb height short of the bottom of the text rows. */
  function Click(x: int, y: int, viewWidth: int, viewHeight: int, textWidth: int, textHeight: int,
                 clientHeight: int, thumb: RectF): (a: ClickAction)
    ensures a != Ignore <==>
      (x > viewWidth * textWidth && (y as real) < (viewHeight * textHeight) as real - thumb.height)
    ensures a.Scroll? ==> a.fraction * (clientHeight as real - thumb.height) == y as real
    ensures a.ScrollUndefined? <==> (a != Ignore && clientHeight as real == thumb.height)
    ensures 0 <= y && 0.0 <= thumb.height && viewHeight * textHeight <= clientHeight && a != Ignore ==>
      a.Scroll? && 0.0 <= a.fraction < 1.0
  {
    if x > viewWidth * textWidth && (y as real) < (viewHeight * textHeight) as real - thumb.height then
      if clientHeight as real == thumb.height then ScrollUndefined
      else Scroll(ScrollFraction(y as real, clientHeight, thumb.height))
    else Ignore
  }

  /** A click at or below the client's top edge that passes the hit test, with
      the text rows fitting in the client area, always asks for a fraction in [0, 1). */
  lemma ClickFractionInUnit(x: int, y: int, viewWidth: int, viewHeight: int, textWidth: int,
                            textHeight: int, clientHeight: int, thumb: RectF)
    requires 0 <= y && 0.0 <= thumb.height && viewHeight * textHeight <= clientHeight
    requires Click(x, y, viewWidth, viewHeight, textWidth, textHeight, clientHeight, thumb) != Ignore
    ensures var a := Click(x, y, viewWidth, viewHeight, textWidth, textHeight, clientHeight, thumb);
      a.Scroll? && 0.0 <= a.fraction < 1.0
  {
    var d := clientHeight as real - thumb.height;
    assert (y as real) < d;
    FractionBelowOne(y as real, d);
  }

  lemma FractionBelowOne(n: real, d: real)
    requires 0.0 <= n < d
    ensures 0.0 <= n / d < 1.0
  {
    assert n / d * d == n;
  }

  /** Scrolling to the fraction of the thumb's top edge gives back the view's
      current top row (exact arithmetic). */
  lemma ThumbTopRoundTrip(area: RectF, viewY: int, viewHeight: int, bufferHeight: int, clientHeight: int)
    requires 0 <= viewY && 1 <= viewHeight && viewY + viewHeight <= bufferHeight && viewHeight < bufferHeight
    requires 0 < clientHeight
    ensures var t := Thumb(area, viewY, viewHeight, bufferHeight, clientHeight);
      && clientHeight as real != t.height
      && ScrollTop(bufferHeight, viewHeight, ScrollFraction(t.top, clientHeight, t.height)) == viewY
  {
    var b, c := bufferHeight as real, clientHeight as real;
    var t := Thumb(area, viewY, viewHeight, bufferHeight, clientHeight);
    var d := (bufferHeight - viewHeight) as real;
    assert c - t.height == d / b * c;
    assert d / b * c > 0.0;
    var p := t.top / (c - t.height);
    assert p == viewY as real / d;
    assert d * p == viewY as real;
  }
}
