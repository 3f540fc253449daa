/**
 * The Win32 values the window procedure and the key table depend on, as
 * declared in winuser.h and imm.h.
 */
module Win32 {
  /** A window handle; 0 is the null handle `CreateWindowExW` fails with. */
  type Handle = nat
  const NullHandle: Handle := 0

  // Window messages.
  const WM_DESTROY: nat := 0x0002
  const WM_MOVE: nat := 0x0003
  const WM_SIZE: nat := 0x0005
  const WM_ACTIVATE: nat := 0x0006
  const WM_PAINT: nat := 0x000F
  const WM_CLOSE: nat := 0x0010
  const WM_NCCREATE: nat := 0x0081
  const WM_KEYDOWN: nat := 0x0100
  const WM_KEYUP: nat := 0x0101
  const WM_CHAR: nat := 0x0102
  const WM_SYSKEYDOWN: nat := 0x0104
  const WM_SYSKEYUP: nat := 0x0105
  const WM_IME_STARTCOMPOSITION: nat := 0x010D
  const WM_IME_ENDCOMPOSITION: nat := 0x010E
  const WM_IME_COMPOSITION: nat := 0x010F
  const WM_MOUSEMOVE: nat := 0x0200
  const WM_LBUTTONDOWN: nat := 0x0201
  const WM_LBUTTONUP: nat := 0x0202
  const WM_RBUTTONDOWN: nat := 0x0204
  const WM_RBUTTONUP: nat := 0x0205
  const WM_MBUTTONDOWN: nat := 0x0207
  const WM_MBUTTONUP: nat := 0x0208
  const WM_MOUSEWHEEL: nat := 0x020A
  const WM_XBUTTONDOWN: nat := 0x020B
  const WM_XBUTTONUP: nat := 0x020C
  const WM_MOUSEHWHEEL: nat := 0x020E
  const WM_ENTERSIZEMOVE: nat := 0x0231
  const WM_EXITSIZEMOVE: nat := 0x0232
  const WM_DROPFILES: nat := 0x0233
  const WM_IME_SETCONTEXT: nat := 0x0281
  const WM_MOUSELEAVE: nat := 0x02A3
  const WM_DPICHANGED: nat := 0x02E0
  const WM_GETDPISCALEDSIZE: nat := 0x02E4

  // Mouse-key flags in the low word of WPARAM, as `u32` masks.
  const MK_LBUTTON: bv32 := 0x0001
  const MK_RBUTTON: bv32 := 0x0002
  const MK_SHIFT: bv32 := 0x0004
  const MK_CONTROL: bv32 := 0x0008
  const MK_MBUTTON: bv32 := 0x0010
  const MK_XBUTTON1: bv32 := 0x0020
  const MK_XBUTTON2: bv32 := 0x0040

  // Virtual keys.
  const VK_SHIFT: nat := 0x10
  const VK_CONTROL: nat := 0x11
  const VK_MENU: nat := 0x12
  const VK_MULTIPLY: nat := 0x6A
  const VK_ADD: nat := 0x6B
  const VK_SEPARATOR: nat := 0x6C
  const VK_SUBTRACT: nat := 0x6D
  const VK_DECIMAL: nat := 0x6E
  const VK_DIVIDE: nat := 0x6F
  const VK_F1: nat := 0x70
  const VK_LCONTROL: nat := 0xA2
  const VK_RCONTROL: nat := 0xA3
  const VK_LMENU: nat := 0xA4
  const VK_RMENU: nat := 0xA5

  // WM_IME_SETCONTEXT flags.
  const ISC_SHOWUICOMPOSITIONWINDOW: bv32 := 0x8000_0000
  const ISC_SHOWUIALLCANDIDATEWINDOW: bv32 := 0x0000_000F

  // Composition-string indices.
  const GCS_COMPSTR: bv32 := 0x0008
  const GCS_COMPATTR: bv32 := 0x0010
  const GCS_RESULTSTR: bv32 := 0x0800

  // ImmGetCompositionStringW error codes.
  const IMM_ERROR_NODATA: int := -1
  const IMM_ERROR_GENERAL: int := -2

  /** What the window procedure leaves for the UI thread to do next: a
      closure that destroys a window (`UiThread::post`) or the quit message
      (`PostQuitMessage(0)`). */
  datatype Posted = DestroyWindow(h: Handle) | QuitMessage
}
