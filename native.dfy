/** The shapes of the Win32 console structures and constants the engine uses
    (src/win32.cs), with the integer conversions C# applies to them. */
module NativeMethods {

  /** Modifier flags of a console key event. */
  const LEFT_ALT_PRESSED: bv32 := 0x0002
  const LEFT_CTRL_PRESSED: bv32 := 0x0008
  const SHIFT_PRESSED: bv32 := 0x0010

  const SHORT_MIN: int := -0x8000
  const SHORT_MAX: int := 0x7fff

  predicate IsShort(v: int) {
    SHORT_MIN <= v <= SHORT_MAX
  }

  /** C#'s `(short)` cast: keep the low 16 bits and read them as two's complement. */
  function ToShort(v: int): (r: int)
    ensures IsShort(r)
    ensures (r - v) % 0x1_0000 == 0
    ensures IsShort(v) ==> r == v
  {
    var m := v % 0x1_0000;
    if m <= SHORT_MAX then m else m - 0x1_0000
  }

  /** The 32-bit two's complement pattern of an int, as C# stores it. */
  function Bits32(v: int): bv32 {
    (v % 0x1_0000_0000) as bv32
  }

  datatype Coord = Coord(x: int, y: int)

  datatype SmallRect = SmallRect(left: int, top: int, right: int, bottom: int)

  /** The parts of CONSOLE_SCREEN_BUFFER_INFO the engine reads. */
  datatype BufferInfo = BufferInfo(size: Coord, cursorPosition: Coord, window: SmallRect)

  /** One console cell: its character and its 16-bit attribute word. The host
      stores a UTF-16 code unit, which may be a lone surrogate; a Dafny `char`
      is a Unicode scalar value and cannot hold one. */
  datatype CharInfo = CharInfo(unicodeChar: char, attributes: int)

  /** A grid coordinate (System.Drawing.Point), used for damage points. */
  datatype Point = Point(x: int, y: int)

  /** The zero-initialised CHAR_INFO a freshly allocated grid holds. */
  const EmptyCell: CharInfo := CharInfo('\0', 0)

  /** What the console host guarantees of the geometry it reports:
      the window lies inside the buffer and the cursor inside the buffer. */
  predicate WellFormed(info: BufferInfo) {
    && 0 <= info.window.left <= info.window.right < info.size.x <= SHORT_MAX
    && 0 <= info.window.top <= info.window.bottom < info.size.y <= SHORT_MAX
    && 0 <= info.cursorPosition.x < info.size.x
    && 0 <= info.cursorPosition.y < info.size.y
  }

  datatype Option<T> = None | Some(value: T)
}
