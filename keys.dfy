/**
 * Virtual keys of src/device.rs: the `VirtualKey` enumeration and its codes,
 * the raw `VirtualKeyCode` and its constructors `from_char` and `f`, and the
 * left/right-aware comparison of a raw code with a key.
 */
module VirtualKeys {
  import opened Common
  import opened Win32

  type DigitIndex = d: nat | d < 10
  type LetterIndex = l: nat | l < 26
  type FIndex = n: nat | 1 <= n <= 24 witness 1

  /** `VirtualKey`. The runs of consecutive codes (`_0`..`_9`, `A`..`Z`,
      `NumPad0`..`NumPad9`, `F1`..`F24`) are one constructor each. */
  datatype VirtualKey =
    | BackSpace | Tab | Enter | Shift | Ctrl | Alt | Pause | CapsLock | Esc
    | Space | PageUp | PageDown | End | Home | Left | Up | Right | Down
    | PrintScreen | Insert | Delete
    | Digit(d: DigitIndex)
    | Letter(l: LetterIndex)
    | NumPad(n: DigitIndex)
    | NumMul | NumAdd | NumDecimal | NumSub | NumDiv
    | F(f: FIndex)
    | NumLock | ScrollLock | LShift | RShift | LCtrl | RCtrl | LAlt | RAlt

  /** `key as u32`: the enumeration's discriminants, which are the Win32
      virtual-key codes. `NumDecimal` and `NumDiv` carry VK_DECIMAL and
      VK_DIVIDE here; the enumeration as written gives them other codes
      (see `CodeAsWritten`). */
  function Code(k: VirtualKey): nat {
    match k
    case BackSpace => 0x08
    case Tab => 0x09
    case Enter => 0x0d
    case Shift => 0x10
    case Ctrl => 0x11
    case Alt => 0x12
    case Pause => 0x13
    case CapsLock => 0x14
    case Esc => 0x1b
    case Space => 0x20
    case PageUp => 0x21
    case PageDown => 0x22
    case End => 0x23
    case Home => 0x24
    case Left => 0x25
    case Up => 0x26
    case Right => 0x27
    case Down => 0x28
    case PrintScreen => 0x2c
    case Insert => 0x2d
    case Delete => 0x2e
    case Digit(d) => 0x30 + d
    case Letter(l) => 0x41 + l
    case NumPad(n) => 0x60 + n
    case NumMul => 0x6a
    case NumAdd => 0x6b
    case NumDecimal => 0x6e
    case NumSub => 0x6d
    case NumDiv => 0x6f
    case F(n) => 0x70 + n - 1
    case NumLock => 0x90
    case ScrollLock => 0x91
    case LShift => 0xa0
    case RShift => 0xa1
    case LCtrl => 0xa2
    case RCtrl => 0xa3
    case LAlt => 0xa4
    case RAlt => 0xa5
  }

  /** Distinct keys have distinct codes (a `repr(u32)` enumeration cannot
      repeat a discriminant). */
  lemma CodeInjective(a: VirtualKey, b: VirtualKey)
    ensures Code(a) == Code(b) <==> a == b
  {
  }

  /** The discriminants as the enumeration writes them: the variants after
      `NumPad0 = 0x60` have no explicit value and continue by one, so
      `NumDecimal` is 0x6c and `NumDiv` is 0x6e. */
  function CodeAsWritten(k: VirtualKey): nat {
    match k
    case NumDecimal => 0x6c
    case NumDiv => 0x6e
    case _ => Code(k)
  }

  /** As written, `NumDecimal` carries VK_SEPARATOR and `NumDiv` carries
      VK_DECIMAL, so the decimal-point key that Windows reports is taken
      for the divide key, and the divide key matches no variant. */
  lemma NumPadAsWritten(k: VirtualKey)
    ensures CodeAsWritten(NumDecimal) == VK_SEPARATOR
    ensures CodeAsWritten(NumDiv) == VK_DECIMAL
    ensures CodeAsWritten(k) != VK_DIVIDE
  {
  }

  /** With the corrected codes the numeric-keypad operators are exactly
      their Win32 virtual keys. */
  lemma NumPadCodes(k: VirtualKey)
    ensures Code(NumMul) == VK_MULTIPLY && Code(NumAdd) == VK_ADD && Code(NumSub) == VK_SUBTRACT
    ensures Code(NumDecimal) == VK_DECIMAL && Code(NumDiv) == VK_DIVIDE
    ensures Code(k) == VK_DECIMAL <==> k == NumDecimal
    ensures Code(k) == VK_DIVIDE <==> k == NumDiv
  {
  }

  /** A raw virtual-key code. */
  datatype VirtualKeyCode = VirtualKeyCode(code: nat)

  /** `From<VirtualKey> for VirtualKeyCode` as written: the enumeration's
      own discriminant. No other key has that code. */
  function FromKeyAsWritten(k: VirtualKey): (c: VirtualKeyCode)
    ensures forall k' :: CodeAsWritten(k') == c.code <==> k' == k
  {
    VirtualKeyCode(CodeAsWritten(k))
  }

  /** `From<VirtualKey> for VirtualKeyCode` with the corrected keypad
      codes: the Win32 virtual key of `k`, which no other key shares. */
  function FromKey(k: VirtualKey): (c: VirtualKeyCode)
    ensures forall k' :: Code(k') == c.code <==> k' == k
  {
    VirtualKeyCode(Code(k))
  }

  /** Off the two mis-numbered keypad keys both conversions agree; on
      them the source hands out VK_SEPARATOR and VK_DECIMAL where Windows
      reports VK_DECIMAL and VK_DIVIDE. */
  lemma FromKeyNumberings(k: VirtualKey)
    ensures k != NumDecimal && k != NumDiv ==> FromKeyAsWritten(k) == FromKey(k)
    ensures FromKeyAsWritten(NumDecimal).code == VK_SEPARATOR && FromKey(NumDecimal).code == VK_DECIMAL
    ensures FromKeyAsWritten(NumDiv).code == VK_DECIMAL && FromKey(NumDiv).code == VK_DIVIDE
  {
  }

  /** The position of `c` in the half-open character range `lo..hi`, the
      `(lo..hi).position(|d| d == c)` of the source. */
  function PositionIn(c: char, lo: int, hi: int): (r: Option<nat>)
    ensures r.Some? <==> lo <= c as int < hi
    ensures r.Some? ==> r.value == c as int - lo
    decreases hi - lo
  {
    if lo >= hi then None
    else if c as int == lo then Some(0)
    else
      match PositionIn(c, lo + 1, hi)
      case None => None
      case Some(i) => Some(i + 1)
  }

  /** `VirtualKeyCode::from_char`: a digit of `'0'..'9'` or a letter of
      `'A'..'Z'`; both ranges exclude their upper end. */
  function FromChar(c: char): Option<VirtualKeyCode> {
    match PositionIn(c, '0' as int, '9' as int)
    case Some(i) => Some(VirtualKeyCode(Code(Digit(0)) + i))
    case None =>
      match PositionIn(c, 'A' as int, 'Z' as int)
      case Some(i) => Some(VirtualKeyCode(Code(Letter(0)) + i))
      case None => None
  }

  /** `from_char` accepts exactly `'0'`..`'8'` and `'A'`..`'Y'`, giving the
      code of that digit or letter key. */
  lemma FromCharSpec(c: char)
    ensures '0' <= c <= '8' ==> FromChar(c) == Some(FromKey(Digit(c as int - '0' as int)))
    ensures 'A' <= c <= 'Y' ==> FromChar(c) == Some(FromKey(Letter(c as int - 'A' as int)))
    ensures FromChar(c).Some? <==> '0' <= c <= '8' || 'A' <= c <= 'Y'
  {
  }

  /** Because the ranges are half-open, `'9'` and `'Z'` have no code; nor
      has a punctuation mark. */
  lemma FromCharRangeEnds()
    ensures FromChar('9') == None && FromChar('Z') == None && FromChar('!') == None
    ensures FromChar('0') == Some(FromKey(Digit(0))) && FromChar('Y') == Some(FromKey(Letter(24)))
  {
    FromCharSpec('9');
    FromCharSpec('Z');
    FromCharSpec('!');
    FromCharSpec('0');
    FromCharSpec('Y');
  }

  /** `from_char` with the inclusive ranges `'0'..='9'` and `'A'..='Z'`
      that the enumeration's `_0`..`_9` and `A`..`Z` call for. */
  function FromCharInclusive(c: char): Option<VirtualKeyCode> {
    match PositionIn(c, '0' as int, '9' as int + 1)
    case Some(i) => Some(VirtualKeyCode(Code(Digit(0)) + i))
    case None =>
      match PositionIn(c, 'A' as int, 'Z' as int + 1)
      case Some(i) => Some(VirtualKeyCode(Code(Letter(0)) + i))
      case None => None
  }

  /** Every digit and every capital letter has the code of its key, and no
      other character has one. */
  lemma FromCharInclusiveSpec(c: char)
    ensures '0' <= c <= '9' ==> FromCharInclusive(c) == Some(FromKey(Digit(c as int - '0' as int)))
    ensures 'A' <= c <= 'Z' ==> FromCharInclusive(c) == Some(FromKey(Letter(c as int - 'A' as int)))
    ensures FromCharInclusive(c).Some? <==> '0' <= c <= '9' || 'A' <= c <= 'Z'
  {
  }

  /** `VirtualKeyCode::f(n)`. */
  function FKey(n: nat): (r: Option<VirtualKeyCode>)
    ensures r.Some? <==> 1 <= n <= 24
    ensures r.Some? ==> r.value == FromKey(F(n))
  {
    if n >= 1 && n <= 24 then Some(VirtualKeyCode(Code(F(1)) + n - 1)) else None
  }

  /** `PartialEq<VirtualKey> for VirtualKeyCode` as written: the generic
      `Shift`, `Ctrl` and `Alt` match either of their left and right keys
      (the source compares with each side through this same impl, which
      for a side is a code comparison); every other key compares with its
      discriminant. */
  predicate KeyEqAsWritten(c: VirtualKeyCode, k: VirtualKey) {
    match k
    case Shift => c.code == CodeAsWritten(LShift) || c.code == CodeAsWritten(RShift)
    case Ctrl => c.code == CodeAsWritten(LCtrl) || c.code == CodeAsWritten(RCtrl)
    case Alt => c.code == CodeAsWritten(LAlt) || c.code == CodeAsWritten(RAlt)
    case _ => c.code == CodeAsWritten(k)
  }

  /** The same comparison over the corrected keypad codes. */
  predicate KeyEq(c: VirtualKeyCode, k: VirtualKey) {
    match k
    case Shift => c.code == Code(LShift) || c.code == Code(RShift)
    case Ctrl => c.code == Code(LCtrl) || c.code == Code(RCtrl)
    case Alt => c.code == Code(LAlt) || c.code == Code(RAlt)
    case _ => c.code == Code(k)
  }

  predicate IsGenericModifier(k: VirtualKey) {
    k == Shift || k == Ctrl || k == Alt
  }

  /** As written, except for the three generic modifiers a key equals
      exactly the code `From` gives it; a generic modifier equals exactly
      the codes of its two sides. */
  lemma KeyEqAsWrittenSpec(c: VirtualKeyCode, k: VirtualKey)
    ensures !IsGenericModifier(k) ==> (KeyEqAsWritten(c, k) <==> c == FromKeyAsWritten(k))
    ensures k == Shift ==> (KeyEqAsWritten(c, k) <==> c == FromKeyAsWritten(LShift) || c == FromKeyAsWritten(RShift))
    ensures k == Ctrl ==> (KeyEqAsWritten(c, k) <==> c == FromKeyAsWritten(LCtrl) || c == FromKeyAsWritten(RCtrl))
    ensures k == Alt ==> (KeyEqAsWritten(c, k) <==> c == FromKeyAsWritten(LAlt) || c == FromKeyAsWritten(RAlt))
  {
  }

  /** The same over the corrected codes. */
  lemma KeyEqSpec(c: VirtualKeyCode, k: VirtualKey)
    ensures !IsGenericModifier(k) ==> (KeyEq(c, k) <==> c == FromKey(k))
    ensures k == Shift ==> (KeyEq(c, k) <==> c == FromKey(LShift) || c == FromKey(RShift))
    ensures k == Ctrl ==> (KeyEq(c, k) <==> c == FromKey(LCtrl) || c == FromKey(RCtrl))
    ensures k == Alt ==> (KeyEq(c, k) <==> c == FromKey(LAlt) || c == FromKey(RAlt))
  {
  }

  /** The two comparisons differ only on the keypad's decimal and divide
      keys. */
  lemma KeyEqNumberings(c: VirtualKeyCode, k: VirtualKey)
    ensures k != NumDecimal && k != NumDiv ==> (KeyEqAsWritten(c, k) <==> KeyEq(c, k))
  {
  }

  /** As written, the decimal-point key Windows reports compares equal to
      `NumDiv` and not to `NumDecimal`; corrected, the decimal-point and
      divide keys each compare equal to their own key. */
  lemma KeyEqKeypad()
    ensures KeyEqAsWritten(VirtualKeyCode(VK_DECIMAL), NumDiv) && !KeyEqAsWritten(VirtualKeyCode(VK_DECIMAL), NumDecimal)
    ensures KeyEq(VirtualKeyCode(VK_DECIMAL), NumDecimal) && KeyEq(VirtualKeyCode(VK_DIVIDE), NumDiv)
  {
  }

  /** A key's own code compares equal to it unless the key is a generic
      modifier: the raw 0x10 is not `Shift`. */
  lemma FromKeyEq(k: VirtualKey)
    ensures KeyEq(FromKey(k), k) <==> !IsGenericModifier(k)
  {
    if k == Shift {
      assert Code(k) == 0x10;
    } else if k == Ctrl {
      assert Code(k) == 0x11;
    } else if k == Alt {
      assert Code(k) == 0x12;
    }
  }

  /** Each side of a generic modifier compares equal to it. */
  lemma ModifierSides()
    ensures KeyEq(FromKey(LShift), Shift) && KeyEq(FromKey(RShift), Shift)
    ensures KeyEq(FromKey(LCtrl), Ctrl) && KeyEq(FromKey(RCtrl), Ctrl)
    ensures KeyEq(FromKey(LAlt), Alt) && KeyEq(FromKey(RAlt), Alt)
  {
  }

  /** `KeyCode`: a virtual key with its hardware scan code. */
  datatype KeyCode = KeyCode(vkey: VirtualKeyCode, scanCode: nat)

  /** `PartialEq<VirtualKey> for KeyCode` compares the virtual key only;
      the reversed comparisons `VirtualKey == ..` call these. */
  predicate KeyCodeEqAsWritten(kc: KeyCode, k: VirtualKey) {
    KeyEqAsWritten(kc.vkey, k)
  }

  /** The key-code comparison over the corrected keypad codes. */
  predicate KeyCodeEq(kc: KeyCode, k: VirtualKey) {
    KeyEq(kc.vkey, k)
  }

  /** The scan code plays no part in either comparison. */
  lemma KeyCodeEqIgnoresScanCode(v: VirtualKeyCode, s: nat, t: nat, k: VirtualKey)
    ensures KeyCodeEqAsWritten(KeyCode(v, s), k) <==> KeyCodeEqAsWritten(KeyCode(v, t), k)
    ensures KeyCodeEq(KeyCode(v, s), k) <==> KeyCodeEq(KeyCode(v, t), k)
    ensures KeyCodeEqAsWritten(KeyCode(v, s), k) <==> KeyEqAsWritten(v, k)
    ensures KeyCodeEq(KeyCode(v, s), k) <==> KeyEq(v, k)
  {
  }
}
