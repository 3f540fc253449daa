/**
 * The window procedure of the UI thread: how each window message is
 * decoded from its WPARAM and LPARAM, and what it does to the registry of
 * windows (module Registry).
 *
 * The Win32 calls a handler makes to learn more (the cursor position, the
 * client rectangle, the IME's strings, the dropped files, ...) are inputs,
 * gathered in a `Host`. A handler that panics sets the registry's
 * `faulted` flag and returns 0, as `window_proc` does after `catch_unwind`.
 */
module Procedure {
  import opened Common
  import opened Win32
  import Geometry
  import Device
  import VirtualKeys
  import Events
  import Ime
  import opened Registry

  // ---------------------------------------------------------------------
  // Machine words
  // ---------------------------------------------------------------------

  /** `WPARAM`: a `usize` on a 64-bit target. */
  type WParam = x: nat | x < 0x1_0000_0000_0000_0000
  /** `LPARAM`: an `isize` on a 64-bit target. */
  type LParam = x: int | -0x8000_0000_0000_0000 <= x < 0x8000_0000_0000_0000

  type I16 = x: int | -0x8000 <= x < 0x8000
  type I32 = x: int | -0x8000_0000 <= x < 0x8000_0000

  /** The two's-complement reading of 16 bits. */
  function ToI16(m: int): (r: I16)
    requires 0 <= m < 0x1_0000
    ensures r % 0x1_0000 == m
  {
    if m >= 0x8000 then m - 0x1_0000 else m
  }

  /** `x as i32`: keep the low 32 bits, read them in two's complement. */
  function ToI32(x: int): (r: I32)
    ensures r % 0x1_0000_0000 == x % 0x1_0000_0000
  {
    var m := x % 0x1_0000_0000;
    if m >= 0x8000_0000 then m - 0x1_0000_0000 else m
  }

  /** `x as u32`: keep the low 32 bits (for a narrower signed `x`, this is
      sign extension). */
  function ToU32(x: int): (r: nat)
    ensures r < 0x1_0000_0000
    ensures 0 <= x < 0x1_0000_0000 ==> r == x
    ensures -0x1_0000_0000 <= x < 0 ==> r == x + 0x1_0000_0000
  {
    x % 0x1_0000_0000
  }

  /** `loword`: `(x & 0xffff) as i16`. */
  function Loword(x: I32): I16 {
    ToI16(x % 0x1_0000)
  }

  /** `hiword`: `((x >> 16) & 0xffff) as i16`; the shift is arithmetic. */
  function Hiword(x: I32): I16 {
    ToI16((x / 0x1_0000) % 0x1_0000)
  }

  /** The 32-bit value whose words are `lo` and `hi` (Windows' MAKELONG). */
  function MakeLong(lo: I16, hi: I16): I32 {
    ToI32((hi % 0x1_0000) * 0x1_0000 + lo % 0x1_0000)
  }

  /** `loword` and `hiword` take apart what MAKELONG puts together. */
  lemma WordsRoundTrip(lo: I16, hi: I16)
    ensures Loword(MakeLong(lo, hi)) == lo
    ensures Hiword(MakeLong(lo, hi)) == hi
  {
    var u := (hi % 0x1_0000) * 0x1_0000 + lo % 0x1_0000;
    var x := MakeLong(lo, hi);
    assert x % 0x1_0000 == lo % 0x1_0000 by {
      assert (x as int) % 0x1_0000_0000 == u;
    }
    assert (x / 0x1_0000) % 0x1_0000 == hi % 0x1_0000 by {
      assert x == u || x == u - 0x1_0000_0000;
    }
  }

  /** ... and every 32-bit value is the MAKELONG of its two words. */
  lemma WordsSplit(x: I32)
    ensures MakeLong(Loword(x), Hiword(x)) == x
  {
    var lo := x % 0x1_0000;
    var q := x / 0x1_0000;
    var hi := q % 0x1_0000;
    assert (Loword(x) as int) % 0x1_0000 == lo;
    assert (Hiword(x) as int) % 0x1_0000 == hi;
    var u := hi * 0x1_0000 + lo;
    assert x == q * 0x1_0000 + lo;
    if x >= 0 {
      DivModUnique(q, 0x1_0000, 0, q);
      assert u == x;
    } else {
      DivModUnique(q, 0x1_0000, -1, q + 0x1_0000);
      assert u == x + 0x1_0000_0000;
    }
    DivModUnique(u, 0x1_0000_0000, 0, u);
  }

  /** Euclidean division is determined by quotient and remainder. */
  lemma DivModUnique(x: int, m: int, q: int, r: int)
    requires m > 0 && 0 <= r < m && x == q * m + r
    ensures x / m == q && x % m == r
  {
    var q', r' := x / m, x % m;
    assert x == q' * m + r';
    if r' >= r {
      assert (q - q') * m == r' - r;
      Geometry.MulSmall(q - q', m, r' - r);
    } else {
      assert (q' - q) * m == r - r';
      Geometry.MulSmall(q' - q, m, r - r');
    }
  }

  // ---------------------------------------------------------------------
  // Mouse parameters
  // ---------------------------------------------------------------------

  /** `lparam_to_point`: the signed words of the LPARAM. */
  function LParamToPoint(lp: LParam): Geometry.Point {
    Geometry.Point(Loword(ToI32(lp)), Hiword(ToI32(lp)))
  }

  /** The low word of a WPARAM, as a `u32`. */
  function LowWord(wp: WParam): (r: bv32)
    ensures r <= 0xFFFF
  {
    (wp % 0x1_0000) as bv32
  }

  /** The high word of the low 32 bits of a WPARAM, as a `u32`. */
  function HighWord(wp: WParam): (r: bv32)
    ensures r <= 0xFFFF
  {
    ((wp / 0x1_0000) % 0x1_0000) as bv32
  }

  /** `i16 as u32` of a word: sign extension. */
  function SignExtend(w: bv32): (r: bv32)
    requires w <= 0xFFFF
    ensures r & 0xFFFF == w
  {
    var high: bv32 := if w & 0x8000 != 0 then 0xFFFF_0000 else 0;
    w | high
  }

  /** A flag of a word. */
  predicate HasFlag(w: bv32, f: bv32) {
    w & f != 0
  }

  /** `buttons |= b as u32` when flag `f` is set. */
  function OrIf(buttons: Device.MouseButtons, flag: bool, b: Device.MouseButton): (r: Device.MouseButtons)
    ensures forall c :: Device.Contains(r, c) <==> Device.Contains(buttons, c) || (c == b && flag)
  {
    if flag then Device.ButtonsOrButton(buttons, b) else buttons
  }

  /** The buttons `get_mouse_buttons` collects, one `|=` per set flag. */
  function PressedOf(left: bool, right: bool, middle: bool, ex0: bool, ex1: bool): (r: Device.MouseButtons)
    ensures forall c :: Device.Contains(r, c) <==>
      (c == Device.Left && left) || (c == Device.Right && right) || (c == Device.Middle && middle)
      || (c == Device.Ex(0) && ex0) || (c == Device.Ex(1) && ex1)
  {
    var none := Device.NewButtons([]);
    var r1 := OrIf(none, left, Device.Left);
    var r2 := OrIf(r1, right, Device.Right);
    var r3 := OrIf(r2, middle, Device.Middle);
    var r4 := OrIf(r3, ex0, Device.Ex(0));
    OrIf(r4, ex1, Device.Ex(1))
  }

  /** Sign extension keeps the low word, so the flags read from the
      extended value are those of the WPARAM's low word. */
  lemma ExtendedFlags(w: bv32)
    requires w <= 0xFFFF
    ensures HasFlag(SignExtend(w), MK_LBUTTON) <==> HasFlag(w, MK_LBUTTON)
    ensures HasFlag(SignExtend(w), MK_RBUTTON) <==> HasFlag(w, MK_RBUTTON)
    ensures HasFlag(SignExtend(w), MK_MBUTTON) <==> HasFlag(w, MK_MBUTTON)
    ensures HasFlag(SignExtend(w), MK_XBUTTON1) <==> HasFlag(w, MK_XBUTTON1)
    ensures HasFlag(SignExtend(w), MK_XBUTTON2) <==> HasFlag(w, MK_XBUTTON2)
  {
  }

  /** `get_mouse_buttons`: a button is in the set exactly when its `MK_*`
      flag is in the low word of the WPARAM; `MK_SHIFT`, `MK_CONTROL` and
      the higher extra buttons never are. */
  function GetMouseButtons(wp: WParam): (r: Device.MouseButtons)
    ensures Device.Contains(r, Device.Left) <==> HasFlag(LowWord(wp), MK_LBUTTON)
    ensures Device.Contains(r, Device.Right) <==> HasFlag(LowWord(wp), MK_RBUTTON)
    ensures Device.Contains(r, Device.Middle) <==> HasFlag(LowWord(wp), MK_MBUTTON)
    ensures Device.Contains(r, Device.Ex(0)) <==> HasFlag(LowWord(wp), MK_XBUTTON1)
    ensures Device.Contains(r, Device.Ex(1)) <==> HasFlag(LowWord(wp), MK_XBUTTON2)
    ensures forall n: Device.ExIndex :: n >= 2 ==> !Device.Contains(r, Device.Ex(n))
  {
    ButtonsOfLowWord(LowWord(wp))
  }

  /** `get_mouse_buttons` on the low word `GetButtonStates` extends. */
  function ButtonsOfLowWord(low: bv32): (r: Device.MouseButtons)
    requires low <= 0xFFFF
    ensures Device.Contains(r, Device.Left) <==> HasFlag(low, MK_LBUTTON)
    ensures Device.Contains(r, Device.Right) <==> HasFlag(low, MK_RBUTTON)
    ensures Device.Contains(r, Device.Middle) <==> HasFlag(low, MK_MBUTTON)
    ensures Device.Contains(r, Device.Ex(0)) <==> HasFlag(low, MK_XBUTTON1)
    ensures Device.Contains(r, Device.Ex(1)) <==> HasFlag(low, MK_XBUTTON2)
    ensures forall n: Device.ExIndex :: n >= 2 ==> !Device.Contains(r, Device.Ex(n))
  {
    var values := SignExtend(low);
    ExtendedFlags(low);
    PressedOf(HasFlag(values, MK_LBUTTON), HasFlag(values, MK_RBUTTON), HasFlag(values, MK_MBUTTON),
              HasFlag(values, MK_XBUTTON1), HasFlag(values, MK_XBUTTON2))
  }

  /** The flags a set of buttons is read from, one button at a time. */
  predicate FlagOf(w: bv32, b: Device.MouseButton) {
    match b
    case Left => HasFlag(w, MK_LBUTTON)
    case Right => HasFlag(w, MK_RBUTTON)
    case Middle => HasFlag(w, MK_MBUTTON)
    case Ex(n) => (n == 0 && HasFlag(w, MK_XBUTTON1)) || (n == 1 && HasFlag(w, MK_XBUTTON2))
  }

  lemma ButtonOfFlag(wp: WParam, b: Device.MouseButton)
    ensures Device.Contains(GetMouseButtons(wp), b) <==> FlagOf(LowWord(wp), b)
  {
    match b
    case Left =>
    case Right =>
    case Middle =>
    case Ex(n) =>
      if n >= 2 {
      } else if n == 0 {
      } else {
      }
  }

  /** The set is empty exactly when no button flag is set: `MK_SHIFT` and
      `MK_CONTROL` are not buttons. */
  lemma NoButtonFlagsNoButtons(wp: WParam)
    ensures Device.IsEmpty(GetMouseButtons(wp))
        <==> LowWord(wp) & (MK_LBUTTON | MK_RBUTTON | MK_MBUTTON | MK_XBUTTON1 | MK_XBUTTON2) == 0
  {
    var e := GetMouseButtons(wp);
    Device.IsEmptyIffNoButton(e);
    if LowWord(wp) & (MK_LBUTTON | MK_RBUTTON | MK_MBUTTON | MK_XBUTTON1 | MK_XBUTTON2) == 0 {
      forall b ensures !Device.Contains(e, b) {
        ButtonOfFlag(wp, b);
      }
    } else {
      assert Device.Contains(e, Device.Left) || Device.Contains(e, Device.Right) || Device.Contains(e, Device.Middle)
          || Device.Contains(e, Device.Ex(0)) || Device.Contains(e, Device.Ex(1));
    }
  }

  /** `MK_LBUTTON | MK_XBUTTON2 | MK_SHIFT` (0x0045) holds the left and the
      second extra button. */
  lemma LeftAndSecondExtra(wp: WParam)
    requires LowWord(wp) == 0x0045
    ensures GetMouseButtons(wp) == Device.NewButtons([Device.Left, Device.Ex(1)])
  {
    var r := GetMouseButtons(wp);
    var t := Device.NewButtons([Device.Left, Device.Ex(1)]);
    forall b ensures Device.Contains(r, b) <==> Device.Contains(t, b) {
      ButtonOfFlag(wp, b);
    }
    Device.SameButtonsSameBits(r, t);
  }

  /** `xbutton_to_ex`: the high word, sign-extended to a `u32`, numbers
      the extra button from 1. `None` is the panic of `MouseButton::ex`: a
      high word of 0 wraps around to `u32::MAX` when 1 is subtracted, and one
      above 29, or a negative one once extended, is out of range. */
  function XButtonToEx(wp: WParam): (r: Option<Device.MouseButton>)
    ensures r.Some? <==> 1 <= HighWord(wp) <= 29
    ensures r.Some? ==> r.value == Device.Ex(HighWord(wp) - 1)
  {
    var n := SignExtend(HighWord(wp));
    if n - 1 <= 28 then Some(Device.ExButton(n - 1)) else None
  }

  /** XBUTTON1 and XBUTTON2 are the first two extra buttons; a high word
      of 0 (here with `MK_XBUTTON1` in the low word) is no button. */
  lemma XButtonExamples()
    ensures XButtonToEx(0x1_0000) == Some(Device.Ex(0))
    ensures XButtonToEx(0x2_0040) == Some(Device.Ex(1))
    ensures XButtonToEx(0x0020) == None
  {
    assert HighWord(0x1_0000) == 1;
    assert HighWord(0x2_0040) == 2;
    assert HighWord(0x0020) == 0;
  }

  /** `get_wheel_delta`: the signed high word of the WPARAM. */
  function GetWheelDelta(wp: WParam): (d: I16)
    ensures d % 0x1_0000 == (wp / 0x1_0000) % 0x1_0000
    ensures d < 0 <==> (wp / 0x1_0000) % 0x1_0000 >= 0x8000
  {
    HighWordsAgree(ToI32(wp), wp);
    Hiword(ToI32(wp))
  }

  /** Values equal modulo 2^32 have the same bits 16 to 31. */
  lemma HighWordsAgree(x: int, y: int)
    requires x % 0x1_0000_0000 == y % 0x1_0000_0000
    ensures (x / 0x1_0000) % 0x1_0000 == (y / 0x1_0000) % 0x1_0000
  {
    var k := x / 0x1_0000_0000 - y / 0x1_0000_0000;
    assert x == y + k * 0x1_0000_0000;
    var q := y / 0x1_0000;
    DivModUnique(x, 0x1_0000, q + k * 0x1_0000, y % 0x1_0000);
    ModAdd(q, k);
  }

  // ---------------------------------------------------------------------
  // Keyboard parameters
  // ---------------------------------------------------------------------

  predicate IsKeyMessage(msg: nat) {
    msg == WM_KEYDOWN || msg == WM_SYSKEYDOWN || msg == WM_KEYUP || msg == WM_SYSKEYUP
  }

  /** The state `key_input` reports for a key message. */
  function KeyState(msg: nat): (r: Device.ButtonState)
    requires IsKeyMessage(msg)
    ensures r == Device.Pressed <==> msg == WM_KEYDOWN || msg == WM_SYSKEYDOWN
  {
    if msg == WM_KEYDOWN || msg == WM_SYSKEYDOWN then Device.Pressed else Device.Released
  }

  /** Bits 16-23 of a keystroke LPARAM. */
  function ScanCode(lp: LParam): nat {
    (lp / 0x1_0000) % 0x100
  }

  /** Bit 24: the key is an extended key (the right-hand Ctrl and Alt). */
  predicate Extended(lp: LParam) {
    (lp / 0x100_0000) % 2 == 1
  }

  /** Bit 30: the key was down before the message. */
  function PrevState(lp: LParam): Device.ButtonState {
    if (lp / 0x4000_0000) % 2 == 1 then Device.Pressed else Device.Released
  }

  /** The keystroke LPARAM Windows builds from its fields. */
  function KeystrokeLParam(repeat: nat, scan: nat, extended: bool, context: bool, previous: bool, transition: bool): LParam
    requires repeat < 0x1_0000 && scan < 0x100
  {
    repeat + scan * 0x1_0000 + (if extended then 0x100_0000 else 0)
    + (if context then 0x2000_0000 else 0) + (if previous then 0x4000_0000 else 0)
    + (if transition then 0x8000_0000 else 0)
  }

  /** `key_input` reads back the scan code, the extended bit and the
      previous state Windows put in a keystroke LPARAM. */
  lemma KeystrokeRoundTrip(repeat: nat, scan: nat, extended: bool, context: bool, previous: bool, transition: bool)
    requires repeat < 0x1_0000 && scan < 0x100
    ensures ScanCode(KeystrokeLParam(repeat, scan, extended, context, previous, transition)) == scan
    ensures Extended(KeystrokeLParam(repeat, scan, extended, context, previous, transition)) == extended
    ensures PrevState(KeystrokeLParam(repeat, scan, extended, context, previous, transition))
            == (if previous then Device.Pressed else Device.Released)
  {
    var e := if extended then 1 else 0;
    var c := if context then 1 else 0;
    var p := if previous then 1 else 0;
    var t := if transition then 1 else 0;
    var lp := KeystrokeLParam(repeat, scan, extended, context, previous, transition);
    var flags := e + 0x20 * c + 0x40 * p + 0x80 * t;
    DivModUnique(lp, 0x1_0000, scan + 0x100 * flags, repeat);
    DivModUnique(scan + 0x100 * flags, 0x100, flags, scan);
    DivModUnique(lp, 0x100_0000, flags, repeat + 0x1_0000 * scan);
    DivModUnique(flags, 2, 0x10 * c + 0x20 * p + 0x40 * t, e);
    DivModUnique(lp, 0x4000_0000, p + 2 * t, repeat + 0x1_0000 * scan + 0x100_0000 * e + 0x2000_0000 * c);
    DivModUnique(p + 2 * t, 2, t, p);
  }

  /** The virtual key `key_input` reports: the WPARAM as a `u16`, with the
      generic modifiers replaced by a side. For Shift the side comes from
      `MapVirtualKeyW` on the scan code, which is `mappedShift` here. */
  function VKey(wp: WParam, extended: bool, mappedShift: nat): nat {
    var v := wp % 0x1_0000;
    if v == VK_SHIFT then mappedShift
    else if v == VK_CONTROL then (if extended then VK_RCONTROL else VK_LCONTROL)
    else if v == VK_MENU then (if extended then VK_RMENU else VK_LMENU)
    else v
  }

  /** Ctrl and Alt reach the application as their left or right key, and
      compare equal to the generic modifier; other keys pass unchanged. */
  lemma VKeySides(wp: WParam, extended: bool, mappedShift: nat)
    ensures wp % 0x1_0000 == VK_CONTROL ==>
      VirtualKeys.VirtualKeyCode(VKey(wp, extended, mappedShift))
        == VirtualKeys.FromKey(if extended then VirtualKeys.RCtrl else VirtualKeys.LCtrl)
      && VirtualKeys.KeyEq(VirtualKeys.VirtualKeyCode(VKey(wp, extended, mappedShift)), VirtualKeys.Ctrl)
    ensures wp % 0x1_0000 == VK_MENU ==>
      VirtualKeys.VirtualKeyCode(VKey(wp, extended, mappedShift))
        == VirtualKeys.FromKey(if extended then VirtualKeys.RAlt else VirtualKeys.LAlt)
      && VirtualKeys.KeyEq(VirtualKeys.VirtualKeyCode(VKey(wp, extended, mappedShift)), VirtualKeys.Alt)
    ensures wp % 0x1_0000 !in {VK_SHIFT, VK_CONTROL, VK_MENU} ==> VKey(wp, extended, mappedShift) == wp % 0x1_0000
  {
  }

  /** The `KeyInput` event of a key message. */
  function DecodeKey(msg: nat, wp: WParam, lp: LParam, mappedShift: nat): (k: Events.KeyInput)
    requires IsKeyMessage(msg)
    ensures k.state == Device.Released <==> msg == WM_KEYUP || msg == WM_SYSKEYUP
    ensures k.keyCode.vkey == VirtualKeys.VirtualKeyCode(VKey(wp, Extended(lp), mappedShift))
    ensures k.keyCode.scanCode == ScanCode(lp) && k.keyCode.scanCode < 0x100
    ensures k.prevState == PrevState(lp)
  {
    Events.KeyInput(
      KeyState(msg),
      VirtualKeys.KeyCode(VirtualKeys.VirtualKeyCode(VKey(wp, Extended(lp), mappedShift)), ScanCode(lp)),
      PrevState(lp))
  }

  // ---------------------------------------------------------------------
  // Character and IME parameters
  // ---------------------------------------------------------------------

  /** `char::from_u32`: the scalar values, surrogates excluded. */
  function CharFromU32(v: nat): (r: Option<char>)
    ensures r.Some? <==> v < 0xD800 || 0xE000 <= v < 0x11_0000
    ensures r.Some? ==> r.value as int == v
  {
    if v < 0xD800 || 0xE000 <= v < 0x11_0000 then Some(v as char) else None
  }

  /** The LPARAM `wm_ime_set_context` passes on: the low 32 bits, with the
      composition-window flag cleared unless that window is visible and the
      candidate-window flags cleared unless those are. */
  function ImeSetContextLParam(lp: LParam, compositionVisible: bool, candidateVisible: bool): bv32 {
    ClearHiddenWindows(ToU32(lp) as bv32, compositionVisible, candidateVisible)
  }

  function ClearHiddenWindows(x: bv32, compositionVisible: bool, candidateVisible: bool): bv32 {
    var keepComposition: bv32 := if compositionVisible then 0xFFFF_FFFF else !ISC_SHOWUICOMPOSITIONWINDOW;
    var keepCandidates: bv32 := if candidateVisible then 0xFFFF_FFFF else !ISC_SHOWUIALLCANDIDATEWINDOW;
    x & keepComposition & keepCandidates
  }

  /** AND keeps a bit iff both operands have it. */
  lemma AndBit(x: bv32, y: bv32, i: Device.BitIndex)
    ensures Device.HasBit(x & y, i) <==> Device.HasBit(x, i) && Device.HasBit(y, i)
  {
  }

  /** Bit by bit: a bit survives unless it is the composition-window flag
      (bit 31) of an invisible composition window or a candidate-window flag
      (bits 0-3) of an invisible candidate window. */
  lemma ImeSetContextBits(x: bv32, compositionVisible: bool, candidateVisible: bool, i: Device.BitIndex)
    ensures Device.HasBit(ClearHiddenWindows(x, compositionVisible, candidateVisible), i)
        <==> Device.HasBit(x, i) && (i == 31 ==> compositionVisible) && (i < 4 ==> candidateVisible)
  {
    var keepComposition: bv32 := if compositionVisible then 0xFFFF_FFFF else !ISC_SHOWUICOMPOSITIONWINDOW;
    var keepCandidates: bv32 := if candidateVisible then 0xFFFF_FFFF else !ISC_SHOWUIALLCANDIDATEWINDOW;
    AndBit(x, keepComposition, i);
    AndBit(x & keepComposition, keepCandidates, i);
    assert Device.HasBit(keepComposition, i) <==> (i == 31 ==> compositionVisible);
    assert Device.HasBit(keepCandidates, i) <==> (i < 4 ==> candidateVisible);
  }

  // ---------------------------------------------------------------------
  // What the handlers learn from Windows, and what they return
  // ---------------------------------------------------------------------

  /** The answers of the Win32 calls the handlers make. */
  datatype Host = Host(
    /** `MapVirtualKeyW(scan_code, MAPVK_VSC_TO_VK_EX)`: the side of Shift. */
    mappedShift: nat,
    /** `GetCursorPos` followed by `ScreenToClient`. */
    cursorPosition: Geometry.Point,
    /** `GetClientRect`: its right and bottom, as `u32`. */
    clientSize: Geometry.Size,
    /** `GetDpiForWindow`. */
    dpi: nat,
    /** `ImmGetCompositionStringW` for `GCS_COMPSTR`, `GCS_COMPATTR` and
        `GCS_RESULTSTR`. */
    compStr: Ime.Reply,
    compAttr: Ime.Reply,
    resultStr: Ime.Reply,
    /** `Imc::get_candidate_list`. */
    candidates: Option<Ime.CandidateList>,
    /** `DragQueryFileW` and `DragQueryPoint` on the drop handle. */
    dropped: Events.DropFiles,
    /** Whether `close_req.send` succeeded: a receiver was there. */
    closeSent: bool)

  /** The IME replies are what `ImmGetCompositionStringW` can return. */
  predicate HostValid(host: Host) {
    Ime.WellFormedReply(host.compStr) && Ime.WellFormedReply(host.compAttr) && Ime.WellFormedReply(host.resultStr)
  }

  /** The `LRESULT` of a handler: a value, or what `DefWindowProcW` returns
      for the message it is passed on with. */
  datatype LResult = Value(v: int) | DefaultProc(msg: nat, wparam: WParam, lparam: LParam)

  /** The registry after a message, and the handler's result. */
  datatype Handled = Handled(state: State, ret: LResult)

  /** What a handler that only reads its window does: the event it sends
      to the window's channel, if any, and its result. */
  datatype Reaction = Reaction(event: Option<Event>, ret: LResult)

  function Applied(s: State, h: Handle, r: Reaction): (o: Handled)
    ensures o.ret == r.ret
    ensures LogsGrown(s, o.state, h, 1) && o.state.(windows := s.windows) == s
    ensures h in s.windows ==> o.state.windows[h].log == s.windows[h].log + (if r.event.Some? then [r.event.value] else [])
  {
    Handled(if r.event.Some? then Emit(s, h, r.event.value) else s, r.ret)
  }

  /** `Context::get_window`. */
  function WindowOf(s: State, h: Handle): (w: Option<WindowState>)
    ensures w.Some? <==> h in s.windows
    ensures w.Some? ==> w.value == s.windows[h]
  {
    if h in s.windows then Some(s.windows[h]) else None
  }

  /** Appends work for the UI thread. */
  function Post(s: State, p: Posted): State {
    s.(posted := s.posted + [p])
  }

  // ---------------------------------------------------------------------
  // Handlers that only read their window
  // ---------------------------------------------------------------------

  function MouseStateOf(wp: WParam, lp: LParam): Events.MouseState {
    Events.MouseState(LParamToPoint(lp), GetMouseButtons(wp))
  }

  /** `mouse_input`. */
  function MouseInputReaction(w: Option<WindowState>, button: Device.MouseButton, state: Device.ButtonState, wp: WParam, lp: LParam): (r: Reaction)
    ensures r.ret == Value(0)
    ensures r.event.Some? <==> w.Some?
  {
    Reaction(if w.Some? then Some(MouseInput(Events.MouseInput(button, state, MouseStateOf(wp, lp)))) else None, Value(0))
  }

  /** `mouse_wheel`; `msg` is one of the two wheel messages. */
  function MouseWheelReaction(w: Option<WindowState>, msg: nat, wp: WParam, lp: LParam): (r: Reaction)
    requires msg == WM_MOUSEWHEEL || msg == WM_MOUSEHWHEEL
    ensures r.event.Some? <==> w.Some?
    ensures r.ret == (if w.Some? then Value(0) else DefaultProc(msg, wp, lp))
    ensures r.event.Some? ==> (r.event.value.MouseWheel? || r.event.value.MouseHWheel?)
    ensures r.event.Some? ==> (r.event.value.MouseWheel? <==> msg == WM_MOUSEWHEEL)
    ensures r.event.Some? ==>
      r.event.value.wheel.delta == GetWheelDelta(wp) && r.event.value.wheel.mouseState == MouseStateOf(wp, lp)
  {
    if w.None? then Reaction(None, DefaultProc(msg, wp, lp))
    else
      var wheel := Events.MouseWheel(GetWheelDelta(wp), MouseStateOf(wp, lp));
      Reaction(Some(if msg == WM_MOUSEWHEEL then MouseWheel(wheel) else MouseHWheel(wheel)), Value(0))
  }

  /** `key_input`; `msg` is one of the four key messages. */
  function KeyInputReaction(w: Option<WindowState>, msg: nat, wp: WParam, lp: LParam, host: Host): Reaction
    requires IsKeyMessage(msg)
  {
    if w.None? then Reaction(None, DefaultProc(msg, wp, lp))
    else Reaction(Some(KeyInput(DecodeKey(msg, wp, lp, host.mappedShift))), Value(0))
  }

  /** The string of a `GCS_RESULTSTR` query. */
  function ResultText(o: Ime.Outcome<Ime.CompositionString>): Option<string> {
    if o.Something? && o.value.ResultStr? then Some(o.value.s) else None
  }

  /** The string of a `GCS_COMPSTR` query. */
  function CompText(o: Ime.Outcome<Ime.CompositionString>): Option<string> {
    if o.Something? && o.value.CompStr? then Some(o.value.s) else None
  }

  /** The messages whose handlers change more than one window's channels. */
  predicate IsStateful(msg: nat) {
    msg in {WM_MOUSEMOVE, WM_MOUSELEAVE, WM_XBUTTONDOWN, WM_XBUTTONUP, WM_IME_COMPOSITION,
            WM_ENTERSIZEMOVE, WM_EXITSIZEMOVE, WM_CLOSE, WM_DESTROY}
  }

  /** The handlers of the other messages, `w` being the window if it is
      registered. */
  function React(w: Option<WindowState>, msg: nat, wp: WParam, lp: LParam, host: Host): (r: Reaction)
    requires HostValid(host)
    requires !IsStateful(msg)
    ensures r.event.Some? ==> w.Some?
  {
    if msg == WM_PAINT then Reaction(if w.Some? then Some(Draw) else None, Value(0))
    else if msg == WM_LBUTTONDOWN then MouseInputReaction(w, Device.Left, Device.Pressed, wp, lp)
    else if msg == WM_RBUTTONDOWN then MouseInputReaction(w, Device.Right, Device.Pressed, wp, lp)
    else if msg == WM_MBUTTONDOWN then MouseInputReaction(w, Device.Middle, Device.Pressed, wp, lp)
    else if msg == WM_LBUTTONUP then MouseInputReaction(w, Device.Left, Device.Released, wp, lp)
    else if msg == WM_RBUTTONUP then MouseInputReaction(w, Device.Right, Device.Released, wp, lp)
    else if msg == WM_MBUTTONUP then MouseInputReaction(w, Device.Middle, Device.Released, wp, lp)
    else if msg == WM_MOUSEWHEEL || msg == WM_MOUSEHWHEEL then MouseWheelReaction(w, msg, wp, lp)
    else if IsKeyMessage(msg) then KeyInputReaction(w, msg, wp, lp, host)
    else if msg == WM_CHAR then
      var c := CharFromU32(ToU32(wp));
      Reaction(if w.Some? && c.Some? then Some(CharInput(c.value)) else None, Value(0))
    else if msg == WM_IME_SETCONTEXT then
      if w.None? then Reaction(None, DefaultProc(msg, wp, lp))
      else
        var flags := ImeSetContextLParam(lp, w.value.imeCompositionWindowVisibility, w.value.imeCandidateWindowVisibility);
        Reaction(None, DefaultProc(msg, wp, flags as int))
    else if msg == WM_IME_STARTCOMPOSITION then
      Reaction(if w.Some? then Some(ImeStartComposition) else None, DefaultProc(msg, wp, lp))
    else if msg == WM_IME_ENDCOMPOSITION then
      if w.None? then Reaction(None, DefaultProc(msg, wp, lp))
      else
        var ret := Ime.GetCompositionString(GCS_RESULTSTR, host.resultStr);
        Reaction(Some(ImeEndComposition(ResultText(ret))), DefaultProc(msg, wp, lp))
    else if msg == WM_MOVE then
      Reaction(if w.Some? then Some(Moved(LParamToPoint(lp))) else None, Value(0))
    else if msg == WM_SIZE then
      var value := ToI32(lp);
      var size := Geometry.Size(ToU32(Loword(value)), ToU32(Hiword(value)));
      Reaction(if w.Some? then Some(Sizing(size)) else None, Value(0))
    else if msg == WM_DPICHANGED then
      Reaction(if w.Some? then Some(DpiChanged(host.dpi)) else None, Value(0))
    else if msg == WM_GETDPISCALEDSIZE then Reaction(None, Value(1))
    else if msg == WM_ACTIVATE then
      var value := ToU32(Loword(ToI32(wp)));
      Reaction(if w.None? then None else if value == 0 then Some(Inactivated) else Some(Activated), Value(0))
    else if msg == WM_DROPFILES then
      Reaction(if w.Some? then Some(DropFiles(host.dropped)) else None, Value(0))
    else Reaction(None, DefaultProc(msg, wp, lp))
  }

  // ---------------------------------------------------------------------
  // Handlers that change the registry
  // ---------------------------------------------------------------------

  /** `wm_mouse_move`: the first move into a window, when no window holds
      the cursor, is an entry; later ones are moves. */
  function WmMouseMove(s: State, h: Handle, wp: WParam, lp: LParam): (r: Handled)
    ensures LogsGrown(s, r.state, h, 1) && r.state.(windows := s.windows, entered := s.entered) == s
  {
    if h !in s.windows then Handled(s, DefaultProc(WM_MOUSEMOVE, wp, lp))
    else if s.entered.None? then
      Handled(Emit(s.(entered := Some(h)), h, CursorEntered(MouseStateOf(wp, lp))), Value(0))
    else Handled(Emit(s, h, CursorMoved(MouseStateOf(wp, lp))), Value(0))
  }

  /** `wm_mouse_leave`: no window holds the cursor any more; the position
      is the cursor's, not the message's. */
  function WmMouseLeave(s: State, h: Handle, wp: WParam, lp: LParam, host: Host): (r: Handled)
    ensures LogsGrown(s, r.state, h, 1) && r.state.(windows := s.windows, entered := s.entered) == s
  {
    if h !in s.windows then Handled(s, DefaultProc(WM_MOUSELEAVE, wp, lp))
    else
      var state := Events.MouseState(host.cursorPosition, GetMouseButtons(wp));
      Handled(Emit(s.(entered := None), h, CursorLeaved(state)), Value(0))
  }

  /** `WM_XBUTTONDOWN` and `WM_XBUTTONUP`: the button is decoded before the
      window is looked up, so a bad high word panics either way. */
  function WmXButton(s: State, h: Handle, msg: nat, wp: WParam, lp: LParam): (r: Handled)
    requires msg == WM_XBUTTONDOWN || msg == WM_XBUTTONUP
    ensures LogsGrown(s, r.state, h, 1) && r.state.(windows := s.windows, faulted := s.faulted) == s
  {
    match XButtonToEx(wp)
    case None => Handled(s.(faulted := true), Value(0))
    case Some(b) =>
      var state := if msg == WM_XBUTTONDOWN then Device.Pressed else Device.Released;
      Applied(s, h, MouseInputReaction(WindowOf(s, h), b, state, wp, lp))
  }

  /** `wm_enter_size_move`: the size loop has begun; nothing is sent. */
  function WmEnterSizeMove(s: State, wp: WParam, lp: LParam): (r: Handled)
    ensures r.state.resizing && r.state.(resizing := s.resizing) == s
    ensures r.ret == DefaultProc(WM_ENTERSIZEMOVE, wp, lp)
  {
    Handled(s.(resizing := true), DefaultProc(WM_ENTERSIZEMOVE, wp, lp))
  }

  /** `wm_exit_size_move`: the size loop is over; the final client size is
      sent. */
  function WmExitSizeMove(s: State, h: Handle, wp: WParam, lp: LParam, host: Host): (r: Handled)
    ensures LogsGrown(s, r.state, h, 1) && r.state.(windows := s.windows) == s.(resizing := false)
  {
    Handled(Emit(s.(resizing := false), h, Sized(host.clientSize)), DefaultProc(WM_EXITSIZEMOVE, wp, lp))
  }

  /** One `if let` block of `wm_ime_composition`: with a string, query the
      attributes, and send the composition if they came back. */
  datatype Part = Part(state: State, panicked: bool)

  function SendComposition(s: State, h: Handle, text: Option<string>, attrReply: Ime.Reply,
                           candidates: Option<Ime.CandidateList>): (r: Part)
    requires Ime.WellFormedReply(attrReply)
    ensures LogsGrown(s, r.state, h, 1) && r.state.(windows := s.windows) == s
    ensures r.panicked <==> text.Some? && Ime.GetAttrs(attrReply).Panics?
    ensures text.Some? && Ime.GetAttrs(attrReply).Something? && h in s.windows ==>
      r.state.windows[h].log
        == s.windows[h].log + [ImeComposition(Ime.NewComposition(text.value, Ime.GetAttrs(attrReply).value), candidates)]
    ensures !(text.Some? && Ime.GetAttrs(attrReply).Something?) ==> r.state == s
  {
    if text.None? then Part(s, false)
    else
      match Ime.GetCompositionString(GCS_COMPATTR, attrReply)
      case Something(v) =>
        if v.CompAttr? then Part(Emit(s, h, ImeComposition(Ime.NewComposition(text.value, v.attrs), candidates)), false)
        else Part(s, false)
      case Nothing => Part(s, false)
      case Panics => Part(s, true)
  }

  /** `wm_ime_composition` for a registered window, given the string the
      `GCS_RESULTSTR` block extracts. */
  function WmImeCompositionWith(s: State, h: Handle, wp: WParam, lp: LParam, host: Host, result: Option<string>): (r: Handled)
    requires HostValid(host)
    requires h in s.windows
    ensures LogsGrown(s, r.state, h, 2) && r.state.(windows := s.windows, faulted := s.faulted) == s
  {
    var flags := ToU32(lp) as bv32;
    var first :=
      if flags & GCS_RESULTSTR == GCS_RESULTSTR then SendComposition(s, h, result, host.compAttr, None)
      else Part(s, false);
    if first.panicked then Handled(first.state.(faulted := true), Value(0))
    else
      var second :=
        if flags & GCS_COMPSTR == GCS_COMPSTR then
          SendComposition(first.state, h, CompText(Ime.GetCompositionString(GCS_COMPSTR, host.compStr)), host.compAttr, host.candidates)
        else Part(first.state, false);
      LogsGrownTrans(s, first.state, second.state, h, 1, 1);
      if second.panicked then Handled(second.state.(faulted := true), Value(0))
      else if s.windows[h].imeCompositionWindowVisibility then Handled(second.state, DefaultProc(WM_IME_COMPOSITION, wp, lp))
      else Handled(second.state, Value(0))
  }

  /** What `wm_ime_composition` does for a registered window. The result
      block sends the result string and the composition block the
      composition string, each with the attributes, when its flag is in the
      LPARAM and its string is there; a string whose attributes panic
      faults the registry instead. Without a panic, the message goes on to
      `DefWindowProcW` exactly when the composition window is visible, and
      otherwise the result is 0. */
  lemma CompositionOutcome(s: State, h: Handle, wp: WParam, lp: LParam, host: Host, result: Option<string>)
    requires HostValid(host)
    requires h in s.windows
    ensures var r := WmImeCompositionWith(s, h, wp, lp, host, result);
      var flags := ToU32(lp) as bv32;
      var withResult := flags & GCS_RESULTSTR == GCS_RESULTSTR && result.Some?;
      var withComp := flags & GCS_COMPSTR == GCS_COMPSTR && Ime.GetString(host.compStr).Some?;
      var panics := (withResult || withComp) && Ime.GetAttrs(host.compAttr).Panics?;
      r.state.faulted == (s.faulted || panics)
      && r.ret == (if !panics && s.windows[h].imeCompositionWindowVisibility then DefaultProc(WM_IME_COMPOSITION, wp, lp)
                   else Value(0))
    ensures var r := WmImeCompositionWith(s, h, wp, lp, host, result);
      var flags := ToU32(lp) as bv32;
      var attrs := Ime.GetAttrs(host.compAttr);
      var comp := Ime.GetString(host.compStr);
      r.state.windows[h].log
        == s.windows[h].log
           + (if flags & GCS_RESULTSTR == GCS_RESULTSTR && result.Some? && attrs.Something?
              then [ImeComposition(Ime.NewComposition(result.value, attrs.value), None)] else [])
           + (if flags & GCS_COMPSTR == GCS_COMPSTR && comp.Some? && attrs.Something?
              then [ImeComposition(Ime.NewComposition(comp.value, attrs.value), host.candidates)] else [])
  {
    var flags := ToU32(lp) as bv32;
    var attrs := Ime.GetAttrs(host.compAttr);
    var comp := CompText(Ime.GetCompositionString(GCS_COMPSTR, host.compStr));
    assert comp == Ime.GetString(host.compStr);
    var first :=
      if flags & GCS_RESULTSTR == GCS_RESULTSTR then SendComposition(s, h, result, host.compAttr, None)
      else Part(s, false);
    if !first.panicked {
      var second :=
        if flags & GCS_COMPSTR == GCS_COMPSTR then SendComposition(first.state, h, comp, host.compAttr, host.candidates)
        else Part(first.state, false);
      assert h in first.state.windows;
    }
  }

  /** `wm_ime_composition` with the result string taken as a result string:
      the result block sees the decoded result string itself. */
  function WmImeComposition(s: State, h: Handle, wp: WParam, lp: LParam, host: Host): (r: Handled)
    requires HostValid(host)
    ensures LogsGrown(s, r.state, h, 2) && r.state.(windows := s.windows, faulted := s.faulted) == s
    ensures h !in s.windows ==> r == Handled(s, DefaultProc(WM_IME_COMPOSITION, wp, lp))
    ensures h in s.windows ==> r == WmImeCompositionWith(s, h, wp, lp, host, Ime.GetString(host.resultStr))
  {
    if h !in s.windows then Handled(s, DefaultProc(WM_IME_COMPOSITION, wp, lp))
    else WmImeCompositionWith(s, h, wp, lp, host, ResultText(Ime.GetCompositionString(GCS_RESULTSTR, host.resultStr)))
  }

  /** `wm_ime_composition` as written: the `GCS_RESULTSTR` block expects a
      `CompStr`. */
  function WmImeCompositionAsWritten(s: State, h: Handle, wp: WParam, lp: LParam, host: Host): (r: Handled)
    requires HostValid(host)
    ensures LogsGrown(s, r.state, h, 2) && r.state.(windows := s.windows, faulted := s.faulted) == s
  {
    if h !in s.windows then Handled(s, DefaultProc(WM_IME_COMPOSITION, wp, lp))
    else WmImeCompositionWith(s, h, wp, lp, host, CompText(Ime.GetCompositionString(GCS_RESULTSTR, host.resultStr)))
  }

  /** `wm_close`: with no close-request subscriber, or when the request
      cannot be delivered, the window is destroyed on the UI thread. */
  function WmClose(s: State, h: Handle, host: Host): (r: Handled)
    ensures LogsGrown(s, r.state, h, 1) && r.state.(windows := s.windows, posted := s.posted) == s
  {
    if h !in s.windows then Handled(s, DefaultProc(WM_CLOSE, 0, 0))
    else if s.windows[h].closeRequest && host.closeSent then
      Handled(Emit(s, h, CloseRequested(Events.CloseRequest(h))), Value(0))
    else Handled(Post(s, DestroyWindow(h)), Value(0))
  }

  /** `wm_destroy`: the window's last event is `Closed`; it leaves the
      registry, and the UI thread quits once no window is left. */
  function WmDestroy(s: State, h: Handle): (r: Handled)
    ensures r.state.windows == s.windows - {h}
    ensures r.state.(windows := s.windows, retired := s.retired, posted := s.posted) == s
  {
    var s1 := Emit(s, h, Event.Closed);
    var s2 :=
      if h in s1.windows then s1.(windows := s1.windows - {h}, retired := s1.retired[h := s1.windows[h].log])
      else s1;
    Handled(if s2.windows == map[] then Post(s2, QuitMessage) else s2, Value(0))
  }

  /** `window_proc`: the dispatch on the message. Only a close or a
      destroy posts work to the UI thread, and a message without a stateful
      handler moves neither the cursor slot nor the size-loop flag. */
  function Step(s: State, h: Handle, msg: nat, wp: WParam, lp: LParam, host: Host): (r: Handled)
    requires HostValid(host)
    ensures msg != WM_CLOSE && msg != WM_DESTROY ==> r.state.posted == s.posted
    ensures !IsStateful(msg) ==> r.state.entered == s.entered && r.state.resizing == s.resizing
  {
    if IsStateful(msg) then StatefulStep(s, h, msg, wp, lp, host)
    else Applied(s, h, React(WindowOf(s, h), msg, wp, lp, host))
  }

  /** The messages `window_proc` handles with access to the registry. Of
      these, only the X-button and IME-composition handlers can panic. */
  function StatefulStep(s: State, h: Handle, msg: nat, wp: WParam, lp: LParam, host: Host): (r: Handled)
    requires HostValid(host)
    requires IsStateful(msg)
    ensures r.state.faulted != s.faulted ==> msg in {WM_XBUTTONDOWN, WM_XBUTTONUP, WM_IME_COMPOSITION}
    ensures msg != WM_CLOSE && msg != WM_DESTROY ==> r.state.posted == s.posted
  {
    if msg == WM_MOUSEMOVE then WmMouseMove(s, h, wp, lp)
    else if msg == WM_MOUSELEAVE then WmMouseLeave(s, h, wp, lp, host)
    else if msg == WM_XBUTTONDOWN || msg == WM_XBUTTONUP then WmXButton(s, h, msg, wp, lp)
    else if msg == WM_IME_COMPOSITION then WmImeComposition(s, h, wp, lp, host)
    else if msg == WM_ENTERSIZEMOVE then WmEnterSizeMove(s, wp, lp)
    else if msg == WM_EXITSIZEMOVE then WmExitSizeMove(s, h, wp, lp, host)
    else if msg == WM_CLOSE then WmClose(s, h, host)
    else WmDestroy(s, h)
  }

  /** The `WM_SYSKEYUP` arm of `window_proc` as written: it hands the
      message on as `WM_SYSKEYDOWN`. */
  function SysKeyUpAsWritten(s: State, h: Handle, wp: WParam, lp: LParam, host: Host): (r: Handled)
    ensures LogsGrown(s, r.state, h, 1) && r.state.(windows := s.windows) == s
    ensures h in s.windows ==>
      r.state.windows[h].log == s.windows[h].log + [KeyInput(DecodeKey(WM_SYSKEYDOWN, wp, lp, host.mappedShift))]
  {
    Applied(s, h, KeyInputReaction(WindowOf(s, h), WM_SYSKEYDOWN, wp, lp, host))
  }

  // ---------------------------------------------------------------------
  // Properties of the window procedure
  // ---------------------------------------------------------------------

  /** `t` differs from `s` in its windows only by events appended to the
      log of `h`, at most `k` of them; no window is added or removed. */
  predicate LogsGrown(s: State, t: State, h: Handle, k: nat) {
    t.windows.Keys == s.windows.Keys
    && t.retired == s.retired
    && (forall g :: g in s.windows && g != h ==> t.windows[g] == s.windows[g])
    && (h in s.windows ==>
          t.windows[h].(log := s.windows[h].log) == s.windows[h]
          && s.windows[h].log <= t.windows[h].log
          && |t.windows[h].log| <= |s.windows[h].log| + k)
  }

  lemma LogsGrownTrans(s: State, t: State, u: State, h: Handle, a: nat, b: nat)
    requires LogsGrown(s, t, h, a) && LogsGrown(t, u, h, b)
    ensures LogsGrown(s, u, h, a + b)
  {
  }

  /** Every message but `WM_DESTROY` leaves the set of windows alone, leaves
      every other window alone, and only appends to the log of its own
      window, at most two events; `WM_DESTROY` removes its window and no
      other. */
  lemma StepFrame(s: State, h: Handle, msg: nat, wp: WParam, lp: LParam, host: Host)
    requires HostValid(host)
    ensures msg != WM_DESTROY ==> LogsGrown(s, Step(s, h, msg, wp, lp, host).state, h, 2)
    ensures msg == WM_DESTROY ==>
      Step(s, h, msg, wp, lp, host).state.windows == s.windows - {h}
  {
  }

  /** A message for a window that is not registered changes no window and
      moves no cursor tracking. */
  lemma UnregisteredWindow(s: State, h: Handle, msg: nat, wp: WParam, lp: LParam, host: Host)
    requires HostValid(host)
    requires h !in s.windows
    ensures Step(s, h, msg, wp, lp, host).state.windows == s.windows
    ensures Step(s, h, msg, wp, lp, host).state.retired == s.retired
    ensures Step(s, h, msg, wp, lp, host).state.entered == s.entered
  {
  }

  /** The window holding the cursor is set by the first mouse move into a
      registered window, cleared by a mouse-leave, and touched by nothing
      else. */
  lemma CursorSlot(s: State, h: Handle, msg: nat, wp: WParam, lp: LParam, host: Host)
    requires HostValid(host)
    ensures Step(s, h, msg, wp, lp, host).state.entered
         == (if h !in s.windows then s.entered
             else if msg == WM_MOUSEMOVE && s.entered.None? then Some(h)
             else if msg == WM_MOUSELEAVE then None
             else s.entered)
  {
    if msg != WM_MOUSEMOVE && msg != WM_MOUSELEAVE && IsStateful(msg) {
      assert Step(s, h, msg, wp, lp, host).state.entered == s.entered;
    }
  }

  /** The first move into a window is reported as an entry, later ones as
      moves. */
  lemma CursorMoveEvent(s: State, h: Handle, wp: WParam, lp: LParam, host: Host)
    requires HostValid(host)
    ensures h in s.windows ==> Step(s, h, WM_MOUSEMOVE, wp, lp, host).ret == Value(0)
    ensures h in s.windows ==>
      Step(s, h, WM_MOUSEMOVE, wp, lp, host).state
        == if s.entered.None? then Emit(s.(entered := Some(h)), h, CursorEntered(MouseStateOf(wp, lp)))
           else Emit(s, h, CursorMoved(MouseStateOf(wp, lp)))
    ensures h !in s.windows ==> Step(s, h, WM_MOUSEMOVE, wp, lp, host) == Handled(s, DefaultProc(WM_MOUSEMOVE, wp, lp))
  {
  }

  /** A leave reports the cursor's position at the time, not the
      message's. */
  lemma CursorLeaveEvent(s: State, h: Handle, wp: WParam, lp: LParam, host: Host)
    requires HostValid(host)
    ensures h in s.windows ==>
      Step(s, h, WM_MOUSELEAVE, wp, lp, host)
        == Handled(Emit(s.(entered := None), h, CursorLeaved(Events.MouseState(host.cursorPosition, GetMouseButtons(wp)))),
                   Value(0))
    ensures h !in s.windows ==> Step(s, h, WM_MOUSELEAVE, wp, lp, host) == Handled(s, DefaultProc(WM_MOUSELEAVE, wp, lp))
  {
  }

  /** Entering a window, moving in it and leaving it gives its receivers an
      entry, a move and a leave, in that order. */
  lemma EnterMoveLeave(s: State, h: Handle, wp1: WParam, lp1: LParam, wp2: WParam, lp2: LParam,
                       wp3: WParam, lp3: LParam, host: Host)
    requires HostValid(host)
    requires h in s.windows && s.entered.None?
    ensures var s1 := Step(s, h, WM_MOUSEMOVE, wp1, lp1, host).state;
      var s2 := Step(s1, h, WM_MOUSEMOVE, wp2, lp2, host).state;
      var s3 := Step(s2, h, WM_MOUSELEAVE, wp3, lp3, host).state;
      h in s3.windows && s3.entered.None?
      && s3.windows[h].log == s.windows[h].log + [
        CursorEntered(MouseStateOf(wp1, lp1)),
        CursorMoved(MouseStateOf(wp2, lp2)),
        CursorLeaved(Events.MouseState(host.cursorPosition, GetMouseButtons(wp3)))]
  {
    var e1 := CursorEntered(MouseStateOf(wp1, lp1));
    var e2 := CursorMoved(MouseStateOf(wp2, lp2));
    var e3 := CursorLeaved(Events.MouseState(host.cursorPosition, GetMouseButtons(wp3)));
    var s1 := Step(s, h, WM_MOUSEMOVE, wp1, lp1, host).state;
    assert s1 == Emit(s.(entered := Some(h)), h, e1) by {
      CursorMoveEvent(s, h, wp1, lp1, host);
    }

    var s2 := Step(s1, h, WM_MOUSEMOVE, wp2, lp2, host).state;
    assert s2 == Emit(s1, h, e2) by {
      CursorMoveEvent(s1, h, wp2, lp2, host);
    }

    var s3 := Step(s2, h, WM_MOUSELEAVE, wp3, lp3, host).state;
    assert s3 == Emit(s2.(entered := None), h, e3) by {
      CursorLeaveEvent(s2, h, wp3, lp3, host);
    }
    assert s3.windows[h].log == s.windows[h].log + [e1] + [e2] + [e3];
  }

  /** `resizing` is set by `WM_ENTERSIZEMOVE`, cleared by `WM_EXITSIZEMOVE`
      (which sends the final size), and kept by every other message. */
  lemma ResizingFlag(s: State, h: Handle, msg: nat, wp: WParam, lp: LParam, host: Host)
    requires HostValid(host)
    ensures Step(s, h, msg, wp, lp, host).state.resizing
         == (if msg == WM_ENTERSIZEMOVE then true else if msg == WM_EXITSIZEMOVE then false else s.resizing)
    ensures msg == WM_EXITSIZEMOVE && h in s.windows ==>
      Step(s, h, msg, wp, lp, host).state.windows[h].log == s.windows[h].log + [Sized(host.clientSize)]
    ensures msg == WM_ENTERSIZEMOVE || msg == WM_EXITSIZEMOVE ==> Step(s, h, msg, wp, lp, host).ret == DefaultProc(msg, wp, lp)
  {
  }

  /** `WM_CLOSE`: the window is destroyed on the UI thread exactly when no
      close-request subscriber is installed or the request could not be
      delivered; otherwise the request is delivered and nothing is posted.
      A close for an unknown window goes to `DefWindowProcW` unchanged. */
  lemma CloseOutcome(s: State, h: Handle, wp: WParam, lp: LParam, host: Host)
    requires HostValid(host)
    ensures var r := Step(s, h, WM_CLOSE, wp, lp, host);
      if h !in s.windows then r.state == s && r.ret == DefaultProc(WM_CLOSE, 0, 0)
      else
        r.ret == Value(0) && r.state.windows.Keys == s.windows.Keys
        && (r.state.posted == s.posted + [DestroyWindow(h)] <==> !(s.windows[h].closeRequest && host.closeSent))
        && (r.state.posted == s.posted <==> s.windows[h].closeRequest && host.closeSent)
        && (s.windows[h].closeRequest && host.closeSent ==>
              r.state.windows[h].log == s.windows[h].log + [CloseRequested(Events.CloseRequest(h))])
  {
  }

  /** `WM_DESTROY`: the window's receivers see `Closed` last, the window
      leaves the registry, and the quit message is posted exactly when no
      window is left. */
  lemma DestroyOutcome(s: State, h: Handle, wp: WParam, lp: LParam, host: Host)
    requires HostValid(host)
    ensures var t := Step(s, h, WM_DESTROY, wp, lp, host).state;
      t.windows == s.windows - {h}
      && (h in s.windows ==> t.retired == s.retired[h := s.windows[h].log + [Event.Closed]])
      && (h !in s.windows ==> t.retired == s.retired)
      && (t.posted == s.posted + [QuitMessage] <==> t.windows == map[])
      && (t.posted == s.posted <==> t.windows != map[])
    ensures Step(s, h, WM_DESTROY, wp, lp, host).ret == Value(0)
  {
  }

  /** Closing the last window, which has no close-request subscriber, and
      destroying it as the posted work does, ends the UI thread. */
  lemma CloseLastWindow(s: State, h: Handle, host: Host)
    requires HostValid(host)
    requires s.windows.Keys == {h} && !s.windows[h].closeRequest
    ensures var s1 := Step(s, h, WM_CLOSE, 0, 0, host).state;
      var s2 := Step(s1, h, WM_DESTROY, 0, 0, host).state;
      s1.posted == s.posted + [DestroyWindow(h)]
      && s2.windows == map[]
      && s2.posted == s.posted + [DestroyWindow(h), QuitMessage]
      && s2.retired[h] == s.windows[h].log + [Event.Closed]
  {
    var s1 := Step(s, h, WM_CLOSE, 0, 0, host).state;
    CloseOutcome(s, h, 0, 0, host);
    DestroyOutcome(s1, h, 0, 0, host);
    assert s1.windows[h] == s.windows[h];
  }

  /** A key message for a registered window sends one `KeyInput`: pressed
      for the two key-down messages, released for the two key-up ones, with
      the scan code, the side-resolved virtual key and the previous state of
      the LPARAM. */
  lemma KeyMessages(s: State, h: Handle, msg: nat, wp: WParam, lp: LParam, host: Host)
    requires HostValid(host)
    requires IsKeyMessage(msg) && h in s.windows
    ensures var t := Step(s, h, msg, wp, lp, host);
      t.ret == Value(0)
      && t.state.windows[h].log == s.windows[h].log + [KeyInput(DecodeKey(msg, wp, lp, host.mappedShift))]
      && (DecodeKey(msg, wp, lp, host.mappedShift).state == Device.Released <==> msg == WM_KEYUP || msg == WM_SYSKEYUP)
      && DecodeKey(msg, wp, lp, host.mappedShift).keyCode.scanCode == ScanCode(lp)
      && DecodeKey(msg, wp, lp, host.mappedShift).keyCode.vkey
         == VirtualKeys.VirtualKeyCode(VKey(wp, Extended(lp), host.mappedShift))
      && DecodeKey(msg, wp, lp, host.mappedShift).prevState == PrevState(lp)
  {
  }

  /** The six button messages send the button they name, pressed or
      released, with the mouse state the WPARAM and LPARAM carry, and
      return 0; a window that is not registered gets nothing. */
  lemma ButtonMessages(s: State, h: Handle, msg: nat, wp: WParam, lp: LParam, host: Host)
    requires HostValid(host)
    requires msg in {WM_LBUTTONDOWN, WM_RBUTTONDOWN, WM_MBUTTONDOWN, WM_LBUTTONUP, WM_RBUTTONUP, WM_MBUTTONUP}
    ensures var t := Step(s, h, msg, wp, lp, host);
      var button := if msg == WM_LBUTTONDOWN || msg == WM_LBUTTONUP then Device.Left
                    else if msg == WM_RBUTTONDOWN || msg == WM_RBUTTONUP then Device.Right
                    else Device.Middle;
      var state := if msg in {WM_LBUTTONDOWN, WM_RBUTTONDOWN, WM_MBUTTONDOWN} then Device.Pressed else Device.Released;
      t.ret == Value(0)
      && (h in s.windows ==>
            t.state.windows[h].log == s.windows[h].log + [MouseInput(Events.MouseInput(button, state, MouseStateOf(wp, lp)))])
      && (h !in s.windows ==> t.state == s)
  {
  }

  /** The two wheel messages send the signed high word of the WPARAM as
      the delta, vertical for `WM_MOUSEWHEEL` and horizontal for
      `WM_MOUSEHWHEEL`, and return 0; a window that is not registered gets
      nothing and the message goes to `DefWindowProcW`. */
  lemma WheelMessages(s: State, h: Handle, msg: nat, wp: WParam, lp: LParam, host: Host)
    requires HostValid(host)
    requires msg == WM_MOUSEWHEEL || msg == WM_MOUSEHWHEEL
    ensures var t := Step(s, h, msg, wp, lp, host);
      var wheel := Events.MouseWheel(GetWheelDelta(wp), MouseStateOf(wp, lp));
      (h in s.windows ==>
         t.ret == Value(0)
         && t.state.windows[h].log
            == s.windows[h].log + [if msg == WM_MOUSEWHEEL then MouseWheel(wheel) else MouseHWheel(wheel)])
      && (h !in s.windows ==> t.state == s && t.ret == DefaultProc(msg, wp, lp))
  {
  }

  /** `WM_PAINT` sends `Draw` and returns 0. */
  lemma PaintMessage(s: State, h: Handle, wp: WParam, lp: LParam, host: Host)
    requires HostValid(host)
    ensures var t := Step(s, h, WM_PAINT, wp, lp, host);
      t.ret == Value(0)
      && (h in s.windows ==> t.state.windows[h].log == s.windows[h].log + [Draw])
      && (h !in s.windows ==> t.state == s)
  {
  }

  /** `WM_MOVE` sends the position packed in the LPARAM and returns 0. */
  lemma MoveMessage(s: State, h: Handle, wp: WParam, lp: LParam, host: Host)
    requires HostValid(host)
    ensures var t := Step(s, h, WM_MOVE, wp, lp, host);
      t.ret == Value(0)
      && (h in s.windows ==> t.state.windows[h].log == s.windows[h].log + [Moved(LParamToPoint(lp))])
      && (h !in s.windows ==> t.state == s)
  {
  }

  /** `WM_DPICHANGED` sends the window's new DPI and returns 0. */
  lemma DpiChangedMessage(s: State, h: Handle, wp: WParam, lp: LParam, host: Host)
    requires HostValid(host)
    ensures var t := Step(s, h, WM_DPICHANGED, wp, lp, host);
      t.ret == Value(0)
      && (h in s.windows ==> t.state.windows[h].log == s.windows[h].log + [DpiChanged(host.dpi)])
      && (h !in s.windows ==> t.state == s)
  {
  }

  /** `WM_DROPFILES` sends the dropped paths and returns 0. */
  lemma DropFilesMessage(s: State, h: Handle, wp: WParam, lp: LParam, host: Host)
    requires HostValid(host)
    ensures var t := Step(s, h, WM_DROPFILES, wp, lp, host);
      t.ret == Value(0)
      && (h in s.windows ==> t.state.windows[h].log == s.windows[h].log + [DropFiles(host.dropped)])
      && (h !in s.windows ==> t.state == s)
  {
  }

  /** `WM_IME_STARTCOMPOSITION` sends `ImeStartComposition` and hands the
      message to `DefWindowProcW`. */
  lemma ImeStartCompositionMessage(s: State, h: Handle, wp: WParam, lp: LParam, host: Host)
    requires HostValid(host)
    ensures var t := Step(s, h, WM_IME_STARTCOMPOSITION, wp, lp, host);
      t.ret == DefaultProc(WM_IME_STARTCOMPOSITION, wp, lp)
      && (h in s.windows ==> t.state.windows[h].log == s.windows[h].log + [ImeStartComposition])
      && (h !in s.windows ==> t.state == s)
  {
  }

  /** `WM_IME_ENDCOMPOSITION` sends the result string, none when there is
      none, and hands the message to `DefWindowProcW`. */
  lemma ImeEndCompositionMessage(s: State, h: Handle, wp: WParam, lp: LParam, host: Host)
    requires HostValid(host)
    ensures var t := Step(s, h, WM_IME_ENDCOMPOSITION, wp, lp, host);
      t.ret == DefaultProc(WM_IME_ENDCOMPOSITION, wp, lp)
      && (h in s.windows ==> t.state.windows[h].log == s.windows[h].log + [ImeEndComposition(Ime.GetString(host.resultStr))])
      && (h !in s.windows ==> t.state == s)
  {
  }

  /** `WM_IME_SETCONTEXT` sends nothing and passes the LPARAM on with the
      flags of the hidden IME windows cleared. */
  lemma ImeSetContextMessage(s: State, h: Handle, wp: WParam, lp: LParam, host: Host)
    requires HostValid(host)
    ensures var t := Step(s, h, WM_IME_SETCONTEXT, wp, lp, host);
      t.state == s
      && (h in s.windows ==>
            var w := s.windows[h];
            t.ret == DefaultProc(WM_IME_SETCONTEXT, wp,
                       ImeSetContextLParam(lp, w.imeCompositionWindowVisibility, w.imeCandidateWindowVisibility) as int))
      && (h !in s.windows ==> t.ret == DefaultProc(WM_IME_SETCONTEXT, wp, lp))
  {
  }

  /** `WM_GETDPISCALEDSIZE` sends nothing and returns 1. */
  lemma DpiScaledSizeMessage(s: State, h: Handle, wp: WParam, lp: LParam, host: Host)
    requires HostValid(host)
    ensures Step(s, h, WM_GETDPISCALEDSIZE, wp, lp, host) == Handled(s, Value(1))
  {
  }

  /** `WM_NCCREATE` (whose DPI-scaling call is foreign) and every message
      `window_proc` has no arm for change nothing and go to
      `DefWindowProcW`. */
  lemma PassedOnMessages(s: State, h: Handle, msg: nat, wp: WParam, lp: LParam, host: Host)
    requires HostValid(host)
    requires msg == WM_NCCREATE
      || msg !in {WM_PAINT, WM_MOUSEMOVE, WM_MOUSELEAVE, WM_LBUTTONDOWN, WM_RBUTTONDOWN, WM_MBUTTONDOWN,
                  WM_XBUTTONDOWN, WM_LBUTTONUP, WM_RBUTTONUP, WM_MBUTTONUP, WM_XBUTTONUP, WM_MOUSEWHEEL,
                  WM_MOUSEHWHEEL, WM_KEYDOWN, WM_KEYUP, WM_SYSKEYDOWN, WM_SYSKEYUP, WM_CHAR,
                  WM_IME_SETCONTEXT, WM_IME_STARTCOMPOSITION, WM_IME_COMPOSITION, WM_IME_ENDCOMPOSITION,
                  WM_MOVE, WM_SIZE, WM_ENTERSIZEMOVE, WM_EXITSIZEMOVE, WM_DPICHANGED, WM_GETDPISCALEDSIZE,
                  WM_ACTIVATE, WM_DROPFILES, WM_CLOSE, WM_DESTROY, WM_NCCREATE}
    ensures Step(s, h, msg, wp, lp, host) == Handled(s, DefaultProc(msg, wp, lp))
  {
  }

  /** As written, `WM_SYSKEYUP` (releasing a key held with Alt, or F10) is
      reported as a key press. */
  lemma SysKeyUpReportedPressed(s: State, h: Handle, wp: WParam, lp: LParam, host: Host)
    requires h in s.windows
    ensures var t := SysKeyUpAsWritten(s, h, wp, lp, host).state;
      t.windows[h].log == s.windows[h].log + [KeyInput(DecodeKey(WM_SYSKEYDOWN, wp, lp, host.mappedShift))]
      && DecodeKey(WM_SYSKEYDOWN, wp, lp, host.mappedShift).state == Device.Pressed
  {
  }

  /** As written, the `GCS_RESULTSTR` block never sends: a result-string
      query never yields a `CompStr`. A message carrying only that flag
      changes nothing. */
  lemma ResultStringDroppedAsWritten(s: State, h: Handle, wp: WParam, host: Host)
    requires HostValid(host)
    requires h in s.windows
    ensures CompText(Ime.GetCompositionString(GCS_RESULTSTR, host.resultStr)) == None
    ensures WmImeCompositionAsWritten(s, h, wp, GCS_RESULTSTR as int, host).state == s
  {
    assert ToU32(0x800) as bv32 == 0x800;
  }

  /** With the result string read as a result string, the finished text
      reaches the composition channel with its attributes and no
      candidates. */
  lemma ResultStringSent(s: State, h: Handle, wp: WParam, host: Host, text: string, bytes: seq<Ime.Byte>)
    requires HostValid(host)
    requires h in s.windows
    requires text != [] && Ime.Units(bytes) == Ime.Utf16Encode(text) && |bytes| % 2 == 0
    requires host.resultStr == Ime.Reply(|bytes|, bytes)
    requires Ime.GetAttrs(host.compAttr).Something?
    ensures Step(s, h, WM_IME_COMPOSITION, wp, GCS_RESULTSTR as int, host).state.windows[h].log
         == s.windows[h].log + [ImeComposition(Ime.NewComposition(text, Ime.GetAttrs(host.compAttr).value), None)]
  {
    assert ToU32(0x800) as bv32 == 0x800;
    Ime.Utf16RoundTrip(text);
    var result := ResultText(Ime.GetCompositionString(GCS_RESULTSTR, host.resultStr));
    assert result == Some(text);
    var r := WmImeCompositionWith(s, h, wp, GCS_RESULTSTR as int, host, result);
    assert Step(s, h, WM_IME_COMPOSITION, wp, GCS_RESULTSTR as int, host) == r;
    var first := SendComposition(s, h, result, host.compAttr, None);
    assert !first.panicked;
    assert r.state == first.state;
  }

  /** `WM_IME_COMPOSITION` runs the handler with the result string decoded
      from the `GCS_RESULTSTR` reply, whose outcome `CompositionOutcome`
      states; for a window that is not registered it changes nothing and
      goes to `DefWindowProcW`. */
  lemma ImeCompositionMessage(s: State, h: Handle, wp: WParam, lp: LParam, host: Host)
    requires HostValid(host)
    ensures h in s.windows ==>
      Step(s, h, WM_IME_COMPOSITION, wp, lp, host) == WmImeCompositionWith(s, h, wp, lp, host, Ime.GetString(host.resultStr))
    ensures h !in s.windows ==>
      Step(s, h, WM_IME_COMPOSITION, wp, lp, host) == Handled(s, DefaultProc(WM_IME_COMPOSITION, wp, lp))
  {
  }

  /** `WM_ACTIVATE` reports a deactivation exactly when the low word of the
      WPARAM is `WA_INACTIVE` (0). */
  lemma Activation(s: State, h: Handle, wp: WParam, lp: LParam, host: Host)
    requires HostValid(host)
    requires h in s.windows
    ensures Step(s, h, WM_ACTIVATE, wp, lp, host).state.windows[h].log
         == s.windows[h].log + [if wp % 0x1_0000 == 0 then Inactivated else Activated]
    ensures Step(s, h, WM_ACTIVATE, wp, lp, host).ret == Value(0)
  {
    var x := ToI32(wp);
    assert (x as int) % 0x1_0000 == wp % 0x1_0000 by {
      ModLow(x, wp);
    }
  }

  /** Values equal modulo 2^32 are equal modulo 2^16. */
  lemma ModLow(x: int, y: int)
    requires x % 0x1_0000_0000 == y % 0x1_0000_0000
    ensures x % 0x1_0000 == y % 0x1_0000
  {
    var qx, qy := x / 0x1_0000_0000, y / 0x1_0000_0000;
    var j := (qx - qy) * 0x1_0000;
    assert x - y == (qx - qy) * 0x1_0000_0000;
    assert x == y + j * 0x1_0000;
    ModAdd(y, j);
  }

  lemma ModAdd(y: int, j: int)
    ensures (y + j * 0x1_0000) % 0x1_0000 == y % 0x1_0000
  {
  }

  /** `WM_SIZE` reports the width and height packed in the LPARAM. */
  lemma SizeReported(s: State, h: Handle, wp: WParam, width: nat, height: nat, host: Host)
    requires HostValid(host)
    requires h in s.windows && width < 0x8000 && height < 0x8000
    ensures Step(s, h, WM_SIZE, wp, MakeLong(width, height), host).state.windows[h].log
         == s.windows[h].log + [Sizing(Geometry.Size(width, height))]
    ensures Step(s, h, WM_SIZE, wp, MakeLong(width, height), host).ret == Value(0)
  {
    WordsRoundTrip(width, height);
  }

  /** `WM_CHAR` sends the character whose scalar value is the low 32 bits
      of the WPARAM, drops a surrogate or a value past the last scalar, and
      returns 0 either way. */
  lemma CharReported(s: State, h: Handle, wp: WParam, lp: LParam, host: Host)
    requires HostValid(host)
    requires h in s.windows
    ensures var t := Step(s, h, WM_CHAR, wp, lp, host);
      var c := wp % 0x1_0000_0000;
      t.ret == Value(0)
      && if c < 0xD800 || 0xE000 <= c < 0x11_0000 then t.state.windows[h].log == s.windows[h].log + [CharInput(c as char)]
         else t.state == s
  {
  }

  /** A bad extra-button word panics whether or not the window is
      registered: the registry is only marked faulted. */
  lemma XButtonPanic(s: State, h: Handle, msg: nat, wp: WParam, lp: LParam, host: Host)
    requires HostValid(host)
    requires msg == WM_XBUTTONDOWN || msg == WM_XBUTTONUP
    ensures XButtonToEx(wp).None? <==> !(1 <= HighWord(wp) <= 29)
    ensures XButtonToEx(wp).None? ==> Step(s, h, msg, wp, lp, host) == Handled(s.(faulted := true), Value(0))
    ensures XButtonToEx(wp).Some? && h in s.windows ==>
      Step(s, h, msg, wp, lp, host).state.windows[h].log
        == s.windows[h].log + [MouseInput(Events.MouseInput(Device.Ex(HighWord(wp) - 1),
                                  if msg == WM_XBUTTONDOWN then Device.Pressed else Device.Released,
                                  MouseStateOf(wp, lp)))]
    ensures XButtonToEx(wp).Some? ==> Step(s, h, msg, wp, lp, host).ret == Value(0)
    ensures XButtonToEx(wp).Some? && h !in s.windows ==> Step(s, h, msg, wp, lp, host).state == s
  {
  }
}
