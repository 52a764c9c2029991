# CSConsole console-mirroring engine in Dafny

CSConsole shows a Windows console in a WinForms window of its own. It paints
the console's text over a wallpaper image. This project models the engine's
two core classes:

- **Console** (`src/Console.cs`): the view geometry read from the console
  host, two grids of `CHAR_INFO` cells (the current one and the one last
  reported), and the cursor-blink state.
  - `Refresh` takes a new geometry and new cell contents.
  - `DamageList` reports the cells that changed, plus the cursor cells.
  - The cell accessors (`GetBackColor`, `GetForeColor`, `GetCharacter`) feed
    the compositor.
  - `ScrollTo` moves the console window.
  - `WriteKey` forwards keystrokes.
- **ConWindow** (`src/ConWindow.cs`): the form.
  - `SizeText` and `ChangeSize` lay out the client area and the double buffer.
  - `Redraw` repaints either everything (full mode) or only the damage
    points (patch mode).
  - The 100 ms timer handler drives `Refresh`, `DamageList` and `Redraw`.
  - A click in the scroll column scrolls the console.
  - Key events go through `DoWriteKey`.

## How the model is built

- **Host data as parameters.** Whatever the console host returns becomes a
  method parameter: `GetConsoleScreenBufferInfo` as a `BufferInfo`, and
  `ReadConsoleOutput` as a `seq<CharInfo>`. `SendMessage` becomes the
  `Message` value that would be posted.
- **C# conversions written out.**
  - The `(short)` casts of the view size are `ToShort`.
  - `(int)` of a float is `Trunc`, which truncates toward zero.
  - Single-precision floats are reals.
- **The cell accessors use `BufferWidth` as the row stride**, as the source
  does (`src/Console.cs:250`, `280`, `308`). The grids, however, hold
  `ViewWidth*ViewHeight` cells, stored row by row `ViewWidth` wide.
  - When the buffer is as wide as the view, the two agree
    (`StrideMatchesScan`, `NarrowBufferReadable`).
  - When the buffer is wider and the view has two or more rows, the last view
    cell indexes past the end of the grid (`WideBufferOverruns`). A full
    repaint then always raises (`WideBufferUnreadable`).
- **Faults.** A C# `IndexOutOfRangeException` is `Lookup.IndexOutOfRange`.
  Painting stops at the first such cell and `Redraw` reports `ok == false`.
  Everything painted before that point is kept, exactly as far as the source
  got.
- **The double buffer** is an `array<Tile>` with one tile per text cell.
  - `CellRectsDisjoint` shows that the cell rectangles never share a pixel,
    so each fill and each wallpaper restore touches exactly one tile. Glyphs
    are not clipped to their rectangle; see "Left out".
  - A tile records which of these happened: the wallpaper was laid, the back
    colour was filled, and the glyph was drawn in its fore colour.
- **Damage** is specified by the pure function `CellDiff` (the row-major diff)
  together with `DamageUpdate` (the cursor state machine). The `DamageList`
  method is proved equal to their composition.
- **The blink countdown** (`cursorCount`) moves only on non-idle calls. Starting
  from a reloaded count, the phase flips once every `cursorBlinkRate`
  non-idle calls (`BlinkPeriod`).
- **Canvas size.** The double buffer keeps the size given by the last
  `ChangeSize`.
  - `ScrollTo` calls `Refresh` itself, so a geometry change it causes is
    consumed without a `ChangeSize`. The timer then sees no change.
  - The scroll column (`scrollArea`) is computed only by `SizeText`, so after
    a console resize it keeps its old position until the font is set again.

## Model

| member | source | states |
|---|---|---|
| NativeMethods.ToShort | src/Console.cs:100-102 | The `(short)` cast yields a 16-bit value congruent to its input modulo 2^16, and it is the identity on values that already fit. |
| ConsoleView.DefaultSettings | src/Console.cs:369-383 | The default settings have a 16-entry palette and cursor colours that index it. The blink rate is positive and every palette entry is a 24-bit RGB value. |
| ConsoleView.GetBackColor | src/Console.cs:244-256 | Outside the view the result is 0, and on the visible cursor it is the cursor background. Anywhere else the lookup succeeds iff the stride index is in range, and the result is a colour index in 0..15. |
| ConsoleView.GetForeColor | src/Console.cs:274-286 | The same case split as `GetBackColor`, with the cursor foreground and the low nibble of the attribute word. |
| ConsoleView.GetCharacter | src/Console.cs:304-314 | Outside the view the result is NUL. Inside the view a lookup succeeds iff the cell lookup `y*BufferWidth + x` succeeds, and a successful result is that cell's character. |
| ConsoleView.GetCharacterIgnoresCursor | src/Console.cs:304-314 | Unlike the colour accessors, the glyph does not depend on the cursor position or on the blink phase. |
| ConsoleView.StrideMatchesScan | src/Console.cs:250 | When the buffer is as wide as the view, every view cell's stride index is in range and equals the row-major index `DamageList` compares. |
| ConsoleView.WideBufferOverruns | src/Console.cs:280 | When the buffer is wider than the view and there are at least two rows, the last view cell indexes past the end of the grid. |
| ConsoleView.BackArgb | src/Console.cs:263-266 | The background brush keeps the palette entry's RGB bits. For a 24-bit entry, the top byte is the draw alpha. |
| ConsoleView.ForeArgb | src/Console.cs:293-296 | The glyph brush keeps the palette entry's RGB bits and is fully opaque. |
| Damage.CellDiffMembers | src/Console.cs:196-206 | A point is in the cell diff iff it names an in-grid cell whose contents differ between the two grids. |
| Damage.CellDiffScanOrder | src/Console.cs:196-206 | The cell diff lists points in strictly increasing row-major order, so no point appears twice. |
| Damage.CellDiffEmpty | src/Console.cs:196-206 | The cell diff is empty iff the two grids are equal. |
| Damage.BlinkStep | src/Console.cs:218-222 | One step flips the phase iff the count was at most 1. It keeps the countdown invariant: from a count in 0..rate the new count is in 1..rate, and whenever the phase flips the count is reloaded to the full rate. |
| Damage.BlinkAfterInRange | src/Console.cs:218-222 | Starting from any count in 0..rate, including the initial 0, the count stays in 0..rate, and after at least one non-idle call it is in 1..rate. |
| Damage.BlinkCountsDown | src/Console.cs:218-222 | Before the countdown runs out, the phase holds and the count drops by one per non-idle call. |
| Damage.BlinkFlips | src/Console.cs:218-222 | The call that takes the countdown below 1 flips the phase and reloads the count. |
| Damage.BlinkPeriod | src/Console.cs:218-222 | Starting from a reloaded count, after m*rate non-idle calls the phase has flipped m times. |
| Damage.DamageUpdate | src/Console.cs:208-227 | When idle, nothing is reported and the state is kept. Otherwise the result is the cell diff, then the old cursor if it moved, then the new cursor; the old cursor catches up and the blink steps. |
| Damage.RepeatReportsOnlyCursor | src/Console.cs:208-232 | After a non-idle call, a second call on the same grid reports at most the cursor cell. |
| Damage.TenByTwoScenario | src/Console.cs:191-236 | In a 10x2 view where only cell (3,1) changed and the cursor stays visible at (0,0), the damage is exactly [(3,1), (0,0)]. |
| ConsoleBuffer.ResizeReportsNonEmptyCells | src/Console.cs:155-160 | After a resize, which zeroes the previous grid, the next diff reports exactly the cells that are not the zeroed cell. |
| ConsoleBuffer.Console.constructor | src/Console.cs:38-80 | Allocates zeroed grids of the first geometry's size, then runs Refresh. The result is a valid console whose current grid holds the host's cells and whose previous grid is zeroed. |
| ConsoleBuffer.Console.Refresh | src/Console.cs:136-185 | Reports a change iff any of the six geometry values changed. It reallocates both grids, the previous one zeroed, iff the view size changed; otherwise it keeps the previous grid. It copies in the host's cells and sets the new cursor relative to the view. |
| ConsoleBuffer.ChangedCells | src/Console.cs:196-206 | The nested scan loop returns exactly `CellDiff` of the two grids. |
| ConsoleBuffer.Console.DamageList | src/Console.cs:191-236 | The result and the new cursor state are `DamageUpdate` of the cell diff. The current grid is unchanged. The previous grid becomes a copy of the current one unless the call was idle. |
| ConsoleBuffer.Console.ScrollTo | src/Console.cs:328-336 | Requests the current window with Top and Bottom moved to the truncated fraction of the scroll range. For a fraction in [0,1] the request lies in the buffer and keeps the view height. Then the Refresh effects follow. |
| Scrolling.Trunc | src/Console.cs:331 | The `(int)` conversion truncates toward zero, for both signs. |
| Scrolling.ScrollStaysInBuffer | src/Console.cs:328-335 | For a fraction in [0,1] the requested window keeps its columns and the view height, and lies inside the buffer. |
| Scrolling.ScrollIsNotClamped | src/Console.cs:331 | A fraction of 2 or more puts the top row past the last row a full view can start at. |
| Scrolling.ThumbWithinClient | src/ConWindow.cs:193-198 | For a view inside its buffer, the thumb lies in the scroll column and within the client height. |
| Scrolling.ScrollFraction | src/ConWindow.cs:348 | The fraction inverts the thumb's travel: times (ClientHeight minus thumb height) it gives back the click's Y. For a Y within that travel (0 <= Y < ClientHeight minus thumb height) the fraction lies in [0,1). |
| Scrolling.Click | src/ConWindow.cs:342-350 | A click acts iff it is right of the text and above the bottom of the text rows less one thumb height. An acting click's fraction satisfies the scroll equation, and it is undefined exactly on a zero denominator. With the text rows fitting in the client area and a non-negative Y, an acting click always scrolls, by a fraction in [0,1). |
| Scrolling.ClickFractionInUnit | src/ConWindow.cs:344-348 | A click that passes the hit test, at or below the top edge, with the text fitting in the client area, always gives a fraction in [0,1). |
| Scrolling.ThumbTopRoundTrip | src/ConWindow.cs:193-198 | Scrolling to the fraction at the thumb's top edge gives back the current top row. |
| Keys.ModifierMask | src/ConWindow.cs:312 | The mask holds only the three console modifier flags. Each flag is set iff the key code carries the matching Alt, Control or Shift bit. |
| Keys.VirtualKey | src/ConWindow.cs:311 | The virtual key is a 16-bit pattern. |
| Keys.VirtualKeyIgnoresModifiers | src/ConWindow.cs:311 | The virtual key is the same whatever Alt, Control and Shift bits the key code carries. |
| Keys.VirtualKeyIsLowHalf | src/ConWindow.cs:311 | Clearing the modifier bits does not affect the `(short)` cast, so the virtual key is the low 16 bits of the key code. |
| Keys.Widen | src/Console.cs:354-357 | Widening a short to int keeps its low 16 bits and sign-extends the high half. |
| Keys.KeyCodeCarriesNoModifiers | src/ConWindow.cs:309-313 | A 16-bit key code, which is what `KeyEventArgs.KeyCode` gives, always yields an empty modifier mask. |
| Keys.WriteKey | src/Console.cs:345-359 | A character goes as WM_CHAR. Otherwise the virtual key goes as WM_KEYDOWN or WM_KEYUP. The lParam has repeat count 1, the scan code in bits 16-23, bit 30 set for a release and bit 31 set for a press. |
| Keys.WriteKeyIgnoresMask | src/Console.cs:345-359 | The modifier-mask argument never changes the message. |
| Keys.DoWriteKey | src/ConWindow.cs:307-314 | A key event goes as WM_KEYDOWN or WM_KEYUP carrying the key code's low 16 bits, with repeat count 1. |
| Canvas.CellRectsDisjoint | src/ConWindow.cs:234-239 | A pixel lies in a cell's text rectangle iff that cell is the pixel's coordinates divided by the text size. |
| Canvas.PaintCell | src/ConWindow.cs:245-255 | Painting a cell succeeds iff its lookups are in range, and then the tile shows the glyph, fore colour and back colour. On a fault the tile is left as far as painting got: filled with the cursor background, or untouched. |
| Canvas.BrushIndicesInRange | src/ConWindow.cs:246-253 | When the cursor colours are among the 16 brushes, every colour a lookup returns indexes the brush arrays in range. |
| Canvas.PaintPoint | src/ConWindow.cs:241-256 | Painting one point succeeds iff its lookups are in range, and only that point's slot can change. |
| Canvas.PaintPointsOk | src/ConWindow.cs:204-257 | Painting a list succeeds iff every listed point's lookups are in range. |
| Canvas.PaintPointsFrame | src/ConWindow.cs:232-257 | A slot that no listed point hits is unchanged. |
| Canvas.PaintPointsStops | src/ConWindow.cs:232-257 | Once a prefix of the list has raised, the rest of the list is never painted. |
| Canvas.ScanOrderMembers | src/ConWindow.cs:204-207 | The full-mode visiting order covers exactly the cells of the view. |
| Canvas.ScanOrderNoRepeats | src/ConWindow.cs:204-207 | The full-mode visiting order visits no cell twice. |
| Canvas.FullMode | src/ConWindow.cs:191 | Full mode is chosen iff there is no damage list or 4 times its length exceeds ViewWidth. |
| Canvas.FullRepaintResult | src/ConWindow.cs:203-226 | A full repaint succeeds iff the whole view is readable. Then every in-view canvas cell shows its glyph and colours straight on wallpaper, and every other canvas cell shows wallpaper. |
| Canvas.NarrowBufferReadable | src/Console.cs:250 | A buffer exactly as wide as the view, with a full grid, can always be repainted. |
| Canvas.WideBufferUnreadable | src/ConWindow.cs:204-226 | When the buffer is wider than a view of two or more rows, every full repaint raises. |
| Canvas.PatchRepaintResult | src/ConWindow.cs:232-257 | A patch succeeds iff every damage point is readable. Undamaged slots keep their tiles. Each damaged non-cursor cell shows its glyph and colours on restored wallpaper. The cursor cell gets no wallpaper restore (src/ConWindow.cs:241-244). Listed once, it is painted over its previous tile. Listed any number of times, as when the cell under the cursor also changed, it shows its glyph and colours and sits on wallpaper only if listed once over a wallpaper slot. |
| Canvas.PaintPointsUnrestored | src/ConWindow.cs:241-256 | A successfully painted cell with no restore under it, listed one or more times, shows its own glyph, fore and back colour. It is on wallpaper iff it is listed exactly once and its slot held wallpaper before the list. |
| Canvas.PaintPointsOnce | src/ConWindow.cs:232-257 | When a list paints through and names a slot's point exactly once, that slot ends as one paint of the point over the tile it starts from. That tile is restored wallpaper in patch mode, except under the cursor; otherwise it is the slot's tile before the list. |
| Window.ConWindow.constructor | src/ConWindow.cs:38-74 | A form with no double buffer and no wallpaper, and the scroll column that SizeText lays out. |
| Window.ConWindow.SizeText | src/ConWindow.cs:118-130 | Fixes the text cell size and puts the scroll column one cell wide, right of the text, as tall as the text rows. |
| Window.ConWindow.ChangeSize | src/ConWindow.cs:141-156 | The client area is the view plus one scroll column plus the frame. The double buffer is a fresh blank canvas of one tile per view cell, and the form is started. |
| Window.ConWindow.PaintAt | src/ConWindow.cs:241-256 | Painting one cell in place leaves the canvas and `ok` equal to `PaintPoint` of the old canvas. |
| Window.ConWindow.PaintAll | src/ConWindow.cs:203-226 | The full-mode loops leave the canvas and `ok` equal to `FullRepaint`. |
| Window.ConWindow.PaintDamage | src/ConWindow.cs:232-257 | The patch loop leaves the canvas and `ok` equal to `PatchRepaint` of the old canvas. |
| Window.ConWindow.Redraw | src/ConWindow.cs:171-261 | Without wallpaper nothing happens. In full mode the thumb is recomputed and the canvas is `FullRepaint`. In patch mode the thumb is kept and the canvas is `PatchRepaint` of the damage. |
| Window.ConWindow.OnMoveSize | src/ConWindow.cs:158-169 | Resizes, takes the wallpaper, and repaints fully. The thumb and canvas follow the full-mode result. |
| Window.ConWindow.SetSettings | src/ConWindow.cs:94-104 | Sets the new text size and scroll column, resizes the client area and canvas to the view, and keeps `hasWallpaper`. With wallpaper it repaints fully and recomputes the thumb. Without wallpaper the canvas is blank and the thumb is kept. |
| Window.ConWindow.OnRefreshTimer | src/ConWindow.cs:263-282 | The current grid becomes the host's cells. The damage and cursor state are `DamageUpdate` of the diff against the previous grid (zeroed after a resize), and the previous grid becomes the current one unless the call was idle. On a geometry change the client size and canvas follow the new view and the form repaints fully; otherwise size and canvas object are kept and the damage is redrawn. The thumb is recomputed exactly when a full repaint ran with wallpaper. Without wallpaper the canvas is blank after a change and otherwise untouched. The wallpaper flag, text size and scroll column are kept. The console holds fresh grid arrays after a view resize and the same arrays otherwise, so ticks chain. |
| Window.ConWindow.OnClick | src/ConWindow.cs:342-350 | An acting click with a defined fraction requests the window moved by that fraction and refreshes the console. The refresh copies the new cells and cursor, keeps the blink state and the old cursor, and replaces both grid arrays with fresh ones (the previous grid zeroed) only on a view resize, keeping the same arrays otherwise. Any other click requests nothing and leaves the console, both grids included, unchanged. |

## Left out

- Win32 calls become parameters or are left out.
  - `GetConsoleScreenBufferInfo` and `ReadConsoleOutput` become parameters.
  - `SendMessage` becomes the returned `Message`.
  - `MapVirtualKey` becomes the `scanCode` parameter.
  - `GetSystemMetrics(32/33)` become the `frameWidth`/`frameHeight` constants.
  - `AllocConsole`, window lookup and hiding, and `Destroy` are not modelled.
- Font measurement (`MeasureDisplayStringWidth`) is left out: the measured text cell size is a parameter of the constructor and of `SetSettings`.
- GDI drawing is modelled per text cell as a `Tile`, with no pixels, clip regions or anti-aliasing. The copy of `dblBuffer` to the screen and `OnPaint` are not modelled.
- Back-colour blending: the background brushes are translucent (alpha `DrawAlpha`, 0xa0), so a fill shows the pixels under it. A tile records what lies underneath only as `onWallpaper`. Under the cursor cell, where no wallpaper is restored, the earlier paint that shows through the fill is not captured.
- UTF-16 code units: C# `char` (a `CHAR_INFO` cell's `UnicodeChar`, or a `KeyPressEventArgs.KeyChar` passed to `WriteKey`) is a UTF-16 code unit and can be a lone surrogate. The model's `char` is a Unicode scalar value, so lone surrogates are not modelled.
- The wallpaper image is left out. Its contents, its capture behind the window (`Wallpaper.SizeMove`, `GetBackground`) and the scroll column drawn from it are reduced to a `Wallpaper` tile and a `hasWallpaper` flag.
- The timer object, the title update and the form events `OnClose`, `Go` and `Load` are left out. Only what each handler computes is modelled.
- Settings persistence and the `Console.Settings` setter are left out: the console's settings are a constant. The window settings (font name and size) are not modelled beyond the text cell size.
- `CursorPercentage` and `CursorVisible` are not read by the engine and are not modelled.
- Floats are not modelled: single-precision arithmetic is modelled with exact reals, so float rounding in the thumb and the scroll fraction is not captured.
- Window.ConWindow.OnClick: a click whose fraction divides by zero (ClientHeight equal to the thumb height) is treated as no scroll. The source divides to an IEEE infinity or NaN and converts it with `(int)`, which is not modelled.
- Window.ConWindow.OnRefreshTimer: an exception from `Redraw` would propagate out of the handler; here it is `ok == false` and the handler completes.
- Canvas.FullRepaintResult: assumes the wallpaper covers the whole current canvas. In the source, `wallBuffer` is captured again only by `OnMoveSize` (on `ResizeEnd` and `Load`, src/ConWindow.cs:71, 73). The timer's resize path (src/ConWindow.cs:263-282) and the `Settings` setter (src/ConWindow.cs:94-104) do not capture it again. So `DrawImage(wallBuffer, 0, 0)` (src/ConWindow.cs:203) then covers only the old area. With no wallpaper file, `GetBackground` returns a 1x1 bitmap. `Wallpaper.cs` is not part of this model.
- Canvas.PatchRepaintResult: rests on the same wallpaper assumption. Each restore, `DrawImage(wallBuffer, r, r, ...)` (src/ConWindow.cs:243), is taken to lay wallpaper over the whole cell, even where a stale or 1x1 `wallBuffer` does not reach it.
- ConsoleView.GetBackColor, ConsoleView.GetForeColor: the colour index is taken as floor division and remainder by 16 of the attribute word. That this equals C#'s `(Attributes >> 4) & 0xf` and `Attributes & 0xf` on the sign-extended word is not proved. Bit-vector conversions of unbounded integers are beyond what the solver settles here.
- Glyph overhang: `DrawString` is not clipped to the cell rectangle (src/ConWindow.cs:219-224, 250). The text cell width includes `WidthAdj`, which defaults to -2 (src/ConWindow.cs:339, 375). So a glyph can spill into a neighbouring cell, and a later wallpaper restore of that neighbour can erase the overhang. Tiles record one glyph per cell and do not capture this.
- `Console.GetBackColor(int)` and `GetForeColor(int)` are modelled as `BackArgb` and `ForeArgb` over the settings. The brush objects built from them in the ConWindow constructor are not modelled.
- `OnKeyPressed` is the `WriteKey` call with a character, which `Keys.WriteKey` covers. It has no member of its own.
