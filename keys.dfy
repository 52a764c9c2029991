/** Keyboard forwarding: ConWindow.DoWriteKey (src/ConWindow.cs:307-314) splits
    a WinForms key code into a virtual key and a console modifier mask, and
    Console.WriteKey (src/Console.cs:345-359) turns a key into the window
    message posted to the console window. */
module Keys {
  import opened NativeMethods

  /** Modifier bits of System.Windows.Forms.Keys. */
  const KEYS_SHIFT: bv32 := 0x1_0000
  const KEYS_CONTROL: bv32 := 0x2_0000
  const KEYS_ALT: bv32 := 0x4_0000
  const MODIFIER_KEYS: bv32 := 0x7_0000

  const WM_KEYDOWN: int := 256
  const WM_KEYUP: int := 257
  const WM_CHAR: int := 258

  /** A posted window message. */
  datatype Message = Message(msg: int, wParam: bv32, lParam: bv32)

  /** DoWriteKey's mask: LEFT_ALT_PRESSED, LEFT_CTRL_PRESSED and SHIFT_PRESSED
      for the Alt, Control and Shift bits of the key code. */
  function ModifierMask(keyCode: bv32): (mask: bv32)
    ensures mask & !(LEFT_ALT_PRESSED | LEFT_CTRL_PRESSED | SHIFT_PRESSED) == 0
    ensures mask & LEFT_ALT_PRESSED != 0 <==> keyCode & KEYS_ALT != 0
    ensures mask & LEFT_CTRL_PRESSED != 0 <==> keyCode & KEYS_CONTROL != 0
    ensures mask & SHIFT_PRESSED != 0 <==> keyCode & KEYS_SHIFT != 0
  {
    (if keyCode & KEYS_ALT == KEYS_ALT then LEFT_ALT_PRESSED else 0)
    | (if keyCode & KEYS_CONTROL == KEYS_CONTROL then LEFT_CTRL_PRESSED else 0)
    | (if keyCode & KEYS_SHIFT == KEYS_SHIFT then SHIFT_PRESSED else 0)
  }

  /** DoWriteKey's virtual key: the key code with the Alt, Control and Shift bits
      cleared and cast to a short, kept as the short's 16-bit pattern (the high
      half is zero). */
  function VirtualKey(keyCode: bv32): (vk: bv32)
    ensures vk <= 0xffff
  {
    (keyCode & !MODIFIER_KEYS) & 0xffff
  }

  /** The virtual key does not depend on the modifier bits the key code carries. */
  lemma VirtualKeyIgnoresModifiers(keyCode: bv32, modifiers: bv32)
    requires modifiers & !MODIFIER_KEYS == 0
    ensures VirtualKey(keyCode | modifiers) == VirtualKey(keyCode)
  {
    ClearModifiers(keyCode, modifiers);
  }

  /** Clearing the modifier bits changes nothing the `(short)` cast keeps:
      the virtual key is the low 16 bits of the key code. */
  lemma VirtualKeyIsLowHalf(keyCode: bv32)
    ensures VirtualKey(keyCode) == keyCode & 0xffff
  {
    LowHalfHasNoModifiers(keyCode);
  }

  lemma ClearModifiers(keyCode: bv32, modifiers: bv32)
    requires modifiers & !MODIFIER_KEYS == 0
    ensures (keyCode | modifiers) & !MODIFIER_KEYS == keyCode & !MODIFIER_KEYS
  {
  }

  lemma LowHalfHasNoModifiers(keyCode: bv32)
    ensures (keyCode & !MODIFIER_KEYS) & 0xffff == keyCode & 0xffff
  {
  }

  /** A short widened to int (sign extension), as SendMessage receives it. */
  function Widen(v: bv32): (r: bv32)
    requires v <= 0xffff
    ensures r & 0xffff == v
    ensures r >> 16 == (if v < 0x8000 then 0 else 0xffff)
  {
    if v < 0x8000 then v else v | 0xffff_0000
  }

  /** KeyEventArgs.KeyCode is the key data masked to its low 16 bits, so the
      mask DoWriteKey derives from it is always empty. */
  lemma KeyCodeCarriesNoModifiers(keyCode: bv32)
    requires keyCode <= 0xffff
    ensures ModifierMask(keyCode) == 0
  {
  }

  /** Console.WriteKey (the virtual key given as the bit pattern of a short):
      a character goes as WM_CHAR; otherwise the virtual key
      goes as WM_KEYDOWN or WM_KEYUP with an lParam of repeat count 1, the scan
      code in bits 16-23, bit 30 set for a release and bit 31 set for a press.
      The modifier mask argument is not used. */
  function WriteKey(down: bool, vk: bv32, shift: bv32, c: char, scanCode: bv32): (m: Message)
    requires vk <= 0xffff
    ensures c != '\0' ==> m == Message(WM_CHAR, Bits32(c as int), 0)
    ensures c == '\0' ==> m.msg == (if down then WM_KEYDOWN else WM_KEYUP) && m.wParam == Widen(vk)
    ensures c == '\0' ==> m.lParam & 0xffff == 1
    ensures c == '\0' && scanCode <= 0xff ==>
      && (m.lParam >> 16) & 0xff == scanCode
      && (m.lParam >> 24) & 0x3f == 0
      && (m.lParam >> 30) & 1 == (if down then 0 else 1)
      && m.lParam >> 31 == (if down then 1 else 0)
  {
    if c != '\0' then Message(WM_CHAR, Bits32(c as int), 0)
    else
      Message(WM_KEYDOWN + (if !down then 1 else 0), Widen(vk),
              1 | (scanCode << 16) | ((if down then 0 else 1) << 30) | ((if down then 1 else 0) << 31))
  }

  /** The modifier mask never reaches the console: WriteKey ignores it. */
  lemma WriteKeyIgnoresMask(down: bool, vk: bv32, a: bv32, b: bv32, c: char, scanCode: bv32)
    requires vk <= 0xffff
    ensures WriteKey(down, vk, a, c, scanCode) == WriteKey(down, vk, b, c, scanCode)
  {
  }

  /** ConWindow.DoWriteKey: forward a key press or release with no character;
      the scan code is what MapVirtualKey gives for the virtual key. */
  function DoWriteKey(down: bool, keyCode: bv32, scanCode: bv32): (m: Message)
    ensures m.msg == (if down then WM_KEYDOWN else WM_KEYUP)
    ensures m.wParam & 0xffff == keyCode & 0xffff
    ensures m.lParam & 0xffff == 1
  {
    VirtualKeyIsLowHalf(keyCode);
    WriteKey(down, VirtualKey(keyCode), ModifierMask(keyCode), '\0', scanCode)
  }
}
