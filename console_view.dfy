/** The read-only side of the Console class (src/Console.cs): the geometry
    properties, the settings, and the cell and colour accessors the compositor
    calls while painting. */
module ConsoleView {
  import opened NativeMethods

  const NUM_COLORS: int := 16

  /** Console.ConsoleSettings: palette and cursor appearance. */
  datatype ConsoleSettings = ConsoleSettings(
    cursorFore: int,
    cursorBack: int,
    cursorBlinkRate: int,
    drawAlpha: int,
    colorTable: seq<int>)

  /** Settings the compositor can use without indexing outside its 16 brushes. */
  predicate SettingsValid(s: ConsoleSettings) {
    && |s.colorTable| == NUM_COLORS
    && 0 <= s.cursorFore < NUM_COLORS
    && 0 <= s.cursorBack < NUM_COLORS
  }

  /** The defaults built by the ConsoleSettings constructor. */
  function DefaultSettings(): (s: ConsoleSettings)
    ensures SettingsValid(s)
    ensures s.cursorBlinkRate >= 1
    ensures forall c :: 0 <= c < |s.colorTable| ==> 0 <= s.colorTable[c] < 0x100_0000
  {
    ConsoleSettings(0, 10, 5, 0xa0,
      [ 0x000000, 0x0000b0, 0x00b000, 0x00b0b0,
        0xb00000, 0xb000b0, 0xb0b000, 0xb0b0b0,
        0x404040, 0x4040ff, 0x40ff40, 0x40ffff,
        0xff4040, 0xff40ff, 0xffff40, 0xffffff ])
  }

  // Geometry properties, computed from the window rectangle and buffer size.

  function ViewWidth(info: BufferInfo): int {
    ToShort(info.window.right - info.window.left + 1)
  }

  function ViewHeight(info: BufferInfo): int {
    ToShort(info.window.bottom - info.window.top + 1)
  }

  function ViewX(info: BufferInfo): int { info.window.left }

  function ViewY(info: BufferInfo): int { info.window.top }

  function BufferWidth(info: BufferInfo): int { info.size.x }

  function BufferHeight(info: BufferInfo): int { info.size.y }

  /** The six values whose change Refresh reports. */
  datatype Geometry = Geometry(
    bufferWidth: int, bufferHeight: int,
    viewX: int, viewY: int, viewWidth: int, viewHeight: int)

  function GeometryOf(info: BufferInfo): Geometry {
    Geometry(BufferWidth(info), BufferHeight(info), ViewX(info), ViewY(info),
             ViewWidth(info), ViewHeight(info))
  }

  /** A well-formed window is non-empty and fits in the buffer, so the
      `(short)` casts of the view size never wrap. */
  lemma ViewFitsBuffer(info: BufferInfo)
    requires WellFormed(info)
    ensures 1 <= ViewWidth(info) && ViewX(info) + ViewWidth(info) <= BufferWidth(info)
    ensures 1 <= ViewHeight(info) && ViewY(info) + ViewHeight(info) <= BufferHeight(info)
  {
  }

  /** Outcome of an array read: C# raises IndexOutOfRangeException on a bad index. */
  datatype Lookup<T> = Found(value: T) | IndexOutOfRange

  /** Everything the cell accessors read: the current grid, the geometry,
      the cursor and the cursor colours. */
  datatype Frame = Frame(
    cells: seq<CharInfo>,
    viewWidth: int,
    viewHeight: int,
    bufferWidth: int,
    cursorX: int,
    cursorY: int,
    cursorOn: bool,
    cursorFore: int,
    cursorBack: int)

  predicate InView(f: Frame, x: int, y: int) {
    0 <= y < f.viewHeight && 0 <= x < f.viewWidth
  }

  /** The cell is the cursor cell and the cursor is in its visible phase. */
  predicate CursorShownAt(f: Frame, x: int, y: int) {
    x == f.cursorX && y == f.cursorY && f.cursorOn
  }

  /** The grid cell an accessor reads for (x, y): the accessors use the buffer width,
      not the view width, as the row stride. */
  function CellAt(f: Frame, x: int, y: int): Lookup<CharInfo> {
    var k := y * f.bufferWidth + x;
    if 0 <= k < |f.cells| then Found(f.cells[k]) else IndexOutOfRange
  }

  /** The 16-bit attribute word's background nibble, bits 4 to 7. C# takes it
      as `(Attributes >> 4) & 0xf` on the sign-extended word; the model uses
      floor division by 16 and the remainder modulo 16 instead. That the two
      agree for every short, the sign bit included, is a remark here: no lemma
      of the model proves it. */
  function BackNibble(attributes: int): int {
    (attributes / 16) % 16
  }

  /** The 16-bit attribute word's foreground nibble, bits 0 to 3. */
  function ForeNibble(attributes: int): int {
    attributes % 16
  }

  /** Console.GetBackColor(x, y). */
  function GetBackColor(f: Frame, x: int, y: int): (r: Lookup<int>)
    ensures !InView(f, x, y) ==> r == Found(0)
    ensures InView(f, x, y) && CursorShownAt(f, x, y) ==> r == Found(f.cursorBack)
    ensures InView(f, x, y) && !CursorShownAt(f, x, y) ==>
      (r.Found? <==> CellAt(f, x, y).Found?)
    ensures r.Found? && !CursorShownAt(f, x, y) ==> 0 <= r.value < NUM_COLORS
  {
    if InView(f, x, y) then
      if CursorShownAt(f, x, y) then Found(f.cursorBack)
      else match CellAt(f, x, y)
        case Found(c) => Found(BackNibble(c.attributes))
        case IndexOutOfRange => IndexOutOfRange
    else Found(0)
  }

  /** Console.GetForeColor(x, y). */
  function GetForeColor(f: Frame, x: int, y: int): (r: Lookup<int>)
    ensures !InView(f, x, y) ==> r == Found(0)
    ensures InView(f, x, y) && CursorShownAt(f, x, y) ==> r == Found(f.cursorFore)
    ensures InView(f, x, y) && !CursorShownAt(f, x, y) ==>
      (r.Found? <==> CellAt(f, x, y).Found?)
    ensures r.Found? && !CursorShownAt(f, x, y) ==> 0 <= r.value < NUM_COLORS
  {
    if InView(f, x, y) then
      if CursorShownAt(f, x, y) then Found(f.cursorFore)
      else match CellAt(f, x, y)
        case Found(c) => Found(ForeNibble(c.attributes))
        case IndexOutOfRange => IndexOutOfRange
    else Found(0)
  }

  /** Console.GetCharacter(x, y). */
  function GetCharacter(f: Frame, x: int, y: int): (r: Lookup<char>)
    ensures !InView(f, x, y) ==> r == Found('\0')
    ensures InView(f, x, y) ==> (r.Found? <==> CellAt(f, x, y).Found?)
    ensures InView(f, x, y) && r.Found? ==> r.value == CellAt(f, x, y).value.unicodeChar
  {
    if InView(f, x, y) then
      match CellAt(f, x, y)
      case Found(c) => Found(c.unicodeChar)
      case IndexOutOfRange => IndexOutOfRange
    else Found('\0')
  }

  /** Unlike the colour accessors, GetCharacter does not look at the cursor:
      moving it, or switching its blink phase, never changes a glyph. */
  lemma GetCharacterIgnoresCursor(f: Frame, x: int, y: int, cursorX: int, cursorY: int, cursorOn: bool)
    ensures GetCharacter(f.(cursorX := cursorX, cursorY := cursorY, cursorOn := cursorOn), x, y)
         == GetCharacter(f, x, y)
  {
  }

  /** With the buffer exactly as wide as the view, the accessors read the cell
      at row-major index y*ViewWidth + x, the one DamageList compares. */
  lemma StrideMatchesScan(f: Frame, x: int, y: int)
    requires f.bufferWidth == f.viewWidth
    requires |f.cells| == f.viewWidth * f.viewHeight
    requires InView(f, x, y)
    ensures 0 <= y * f.viewWidth + x < |f.cells|
    ensures CellAt(f, x, y) == Found(f.cells[y * f.viewWidth + x])
  {
    IndexInGrid(|f.cells|, f.viewWidth, f.viewHeight, f.bufferWidth, x, y);
  }

  lemma IndexInGrid(n: int, w: int, h: int, b: int, x: int, y: int)
    requires b == w && n == w * h && 0 <= y < h && 0 <= x < w
    ensures 0 <= y * b + x < n && y * b + x == y * w + x
  {
    RowMajorInRange(y, x, w, h);
  }

  /** With the buffer wider than the view and at least two rows, the last
      in-view cell lies past the end of the ViewWidth*ViewHeight grid. */
  lemma WideBufferOverruns(f: Frame)
    requires 1 <= f.viewWidth < f.bufferWidth && 2 <= f.viewHeight
    requires |f.cells| == f.viewWidth * f.viewHeight
    ensures InView(f, f.viewWidth - 1, f.viewHeight - 1)
    ensures CellAt(f, f.viewWidth - 1, f.viewHeight - 1) == IndexOutOfRange
  {
    var w, h, b := f.viewWidth, f.viewHeight, f.bufferWidth;
    calc {
      (h - 1) * b + (w - 1);
    >= { MulMonotone(h - 1, w + 1, b); }
      (h - 1) * (w + 1) + (w - 1);
    ==
      h * w + (h - 2);
    >=
      h * w;
    }
  }

  lemma MulMonotone(a: int, b: int, c: int)
    requires 0 <= a && b <= c
    ensures a * b <= a * c
  {
  }

  /** Row-major index bounds: cell (j, i) of a w-by-h grid has index i*w + j in [0, w*h). */
  lemma RowMajorInRange(i: int, j: int, w: int, h: int)
    requires 0 <= i < h && 0 <= j < w
    ensures 0 <= i * w + j < w * h
  {
    MulMonotone(w, i + 1, h);
    assert (i + 1) * w == i * w + w;
  }

  /** Console.GetBackColor(c): the background brush colour, the draw alpha in
      the top byte over the palette entry. */
  function BackArgb(s: ConsoleSettings, c: int): (r: bv32)
    requires 0 <= c < |s.colorTable|
    ensures r & 0xff_ffff == Bits32(s.colorTable[c]) & 0xff_ffff
    ensures Bits32(s.colorTable[c]) < 0x100_0000 ==> r >> 24 == Bits32(s.drawAlpha) & 0xff
  {
    AlphaOverRgb(Bits32(s.drawAlpha), Bits32(s.colorTable[c]));
    (Bits32(s.drawAlpha) << 24) | Bits32(s.colorTable[c])
  }

  lemma AlphaOverRgb(alpha: bv32, rgb: bv32)
    ensures ((alpha << 24) | rgb) & 0xff_ffff == rgb & 0xff_ffff
    ensures rgb < 0x100_0000 ==> ((alpha << 24) | rgb) >> 24 == alpha & 0xff
  {
  }

  /** Console.GetForeColor(c): the glyph brush colour, fully opaque. */
  function ForeArgb(s: ConsoleSettings, c: int): (r: bv32)
    requires 0 <= c < |s.colorTable|
    ensures r & 0xff_ffff == Bits32(s.colorTable[c]) & 0xff_ffff
    ensures r >> 24 == 0xff
  {
    0xff00_0000 | Bits32(s.colorTable[c])
  }
}
