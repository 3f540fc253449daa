# awita: a Dafny model of the window procedure and its data

awita is an asynchronous windowing library for Windows. A dedicated UI thread
owns every window. That thread keeps a registry of per-window state (the
cursor, the IME settings and a set of broadcast channels) and runs the window
procedure, which decodes each window message and sends events on the
window's channels. Application code holds `Window` handles, posts commands to
the UI thread and awaits events through `Receiver`s.

This project models:

- **Device** (`device.dfy`): the `MouseButton` enumeration and the
  `MouseButtons` bit set as a `bv32`. This covers `ex`, `from`, `new`,
  `contains`, `is_empty`, the four `|` operators, the iterator (a class whose
  `Next` runs the source's search loop) and the `Debug` formatter (a method
  with the source's two loops). Both snapshots of `device.rs` share this
  module; they differ only in what the `src/` one adds.
- **VirtualKeys** (`keys.dfy`): the `VirtualKey` table with its numeric codes,
  `VirtualKeyCode::from_char`, `f`, and the comparisons that make `Shift`,
  `Ctrl` and `Alt` match either side. The conversion `From<VirtualKey>` and
  the comparisons come in two numberings: `FromKeyAsWritten`,
  `KeyEqAsWritten` and `KeyCodeEqAsWritten` use the enumeration's own
  discriminants, and `FromKey`, `KeyEq` and `KeyCodeEq` use the corrected
  keypad codes (see Findings). They differ only on `NumDecimal` and
  `NumDiv`.
- **Geometry** (`geometry.dfy`): conversion between logical and physical
  coordinates at a given DPI over unbounded integers, with Rust's
  truncating division written out.
- **Ime** (`ime.dfy`): attributes, `Composition`, `CandidateList`,
  `ImmContext` (a class with its `enabled` cell), and the decoding of the
  replies of `ImmGetCompositionStringW` into strings and attributes. The
  decoding includes the lossy UTF-16 decoder and the panic on an unknown
  attribute byte.
- **Events** (`event.dfy`): the bounded broadcast channel with overflow on, as
  a class over a `seq` buffer that drops its oldest value when full. This
  includes the `Receiver`'s `try_recv`/`recv`, the close-request one-slot
  channel and `CloseRequest::close`.
- **Registry** (`context.dfy`): the UI thread's `Context` as a class. Its
  fields are the windows, the window holding the cursor, the `resizing` flag,
  the posted work and a `faulted` flag. A window's channels are represented by
  the events sent on them, in order.
- **Window** (`window.dfy`): the `Builder` and its setters, `Window::new` as
  run on the UI thread, and the commands `set_cursor`, `set_ime`,
  `set_ime_position`, `on_event` and `close_request_receiver`.
- **Procedure** (`procedure.dfy`): WPARAM/LPARAM decoding (`loword`,
  `hiword`, button flags, X-button numbers, wheel delta, keystroke fields,
  `char::from_u32`, IME set-context flags). It also has every handler of
  `window_proc` as a function from the registry state to the new state and
  the `LRESULT`. `Step` is the dispatch of `window_proc` with two arms
  corrected (see Findings): `WM_SYSKEYUP` is handed on as itself, so the key
  is reported released, and the `GCS_RESULTSTR` block reads the result
  string as a `ResultStr`, so the finished text is sent. The two arms as
  the source writes them are `SysKeyUpAsWritten` and
  `WmImeCompositionAsWritten`. For every message `window_proc` handles, a
  lemma states what it sends to a registered window and what it returns
  (for WM_SIZE, with an LPARAM that packs a width and a height below
  0x8000); `UnregisteredWindow` states that a message for an unknown
  handle changes no window.
- **WindowProc** (`window_proc.dfy`): the same handlers as methods that update
  a `Registry.Context` in place. Each is proved to produce exactly the state
  and result of its function in Procedure; `Dispatch` therefore follows
  `Step`, corrected arms included.

What a handler learns from Win32 calls is passed in as a `Host` value. This
covers the cursor position, the client size, the DPI, the IME's replies,
`MapVirtualKeyW`, the dropped files and whether a close request was
delivered. A panic inside `window_proc` (an `unreachable!`, an `assert!`, an
arithmetic underflow) is caught by `catch_unwind` in the source. The model
records such a panic as the registry's `faulted` flag, with result 0.

`Host.closeSent` is how the blocking send in `wm_close` ends on the window's
close-request channel: true when `Events.CloseRequestChannel.Send` ends in
`Sent` (after any `Waiting`), false when it is `Refused` because the
receiver was dropped. The registry's `WindowState.imeEnabled` stands for the
`enabled` cell of the window's `ImmContext`: `Window.NewWindow` and
`Window.SetWindowIme` set it where the source calls `enable` or `disable`,
and `Ime.ImmContext` models that cell on its own.

The source is split across two snapshots. `awita/src/procedure.rs` sends on
`mouse_wheel`, `mouse_h_wheel`, `resizing` and `resized` channels.
`awita/src/window.rs` declares `sizing` and `sized` and no wheel channels.
The model follows the procedure:

- `resizing` becomes the `Sizing` event and `resized` becomes the `Sized`
  event;
- wheel events are logged as `MouseWheel` and `MouseHWheel`;
- channel capacities are the ones `window.rs` gives.

## Model

| member | source | states |
|---|---|---|
| Device.ExButton | src/device.rs:52-55 | `ex(n)` for `n <= 28` has discriminant `1 << (3 + n)` and is none of Left, Right, Middle |
| Device.DiscriminantsDistinct | src/device.rs:15-48 | every button is a single bit, and two buttons share a discriminant exactly when they are the same button |
| Device.IndexRoundTrip | src/device.rs:58-60 | `from_u32(1 << i)` and the bit index of a button are inverse to each other |
| Device.FromDiscriminant | awita/src/device.rs:56-60 | converting a single-bit value gives the button with that discriminant |
| Device.ContainsAsWritten | src/device.rs:78-81 | `contains(b)` holds exactly when `bits & b == b` |
| Device.NewButtons | src/device.rs:68-70 | the set folded from a slice contains exactly the buttons in the slice |
| Device.OrFold | awita/src/device.rs:67-69 | folding OR over a list adds exactly the listed buttons to the accumulator |
| Device.NewIgnoresOrder | src/device.rs:68-70 | two slices with the same members build the same set |
| Device.SameButtonsSameBits | src/device.rs:64 | two sets with the same members are equal |
| Device.IsEmptyIffNoButton | src/device.rs:73-75 | `is_empty` holds exactly when no button is contained |
| Device.ButtonOrButton | src/device.rs:143-149 | `a \| b` contains exactly a and b |
| Device.ButtonsOrButton | src/device.rs:151-157 | `s \| b` contains exactly the members of s and b |
| Device.ButtonOrButtons | src/device.rs:159-165 | `b \| s` contains exactly b and the members of s |
| Device.ButtonsOrButtons | src/device.rs:167-173 | `s \| t` is the union of s and t |
| Device.ButtonsSpec | src/device.rs:84-89 | the buttons an iteration yields are in ascending bit order and are exactly the members of the set |
| Device.ButtonsUnique | src/device.rs:127-141 | any ascending list with the set's members is the iteration order |
| Device.MouseButtonsIter.constructor | src/device.rs:84-89 | a new iterator starts at bit 0 with every member still to come |
| Device.MouseButtonsIter.Next | src/device.rs:130-140 | `next` yields the lowest remaining member and drops it; it yields `None` once none is left |
| Device.NewIterExample | src/device.rs:376-384 | iterating `new(&[Left, Middle, Ex1])` gives Left, Middle, Ex1 |
| Device.BitOrIterExample | src/device.rs:406-415 | `Middle \| (Left \| Right)` iterates as Left, Right, Middle |
| Device.BitOrBothIterExample | src/device.rs:417-428 | `(Left \| Right) \| (Middle \| Ex28)` iterates as Left, Right, Middle, Ex28 |
| Device.Fmt | src/device.rs:99-119 | the two loops print `MouseButtons([` then the members' names in ascending order, comma separated, then `])` |
| Device.EmptyDebug | src/device.rs:99-119 | the empty set prints as `MouseButtons([])` |
| Device.DebugExample | awita/src/device.rs:78-98 | `Ex1 \| Left` prints as `MouseButtons([Left, Ex1])` |
| VirtualKeys.CodeInjective | src/device.rs:183-288 | with the intended numbering, distinct keys have distinct codes |
| VirtualKeys.NumPadAsWritten | src/device.rs:241-255 | with the implicit numbering as written, `NumDecimal` is `VK_SEPARATOR`, `NumDiv` is `VK_DECIMAL`, and no key has `VK_DIVIDE` |
| VirtualKeys.NumPadCodes | src/device.rs:241-255 | with the intended numbering, the keypad operators have the Windows codes, and only `NumDecimal`/`NumDiv` map to `VK_DECIMAL`/`VK_DIVIDE` |
| VirtualKeys.FromKeyAsWritten | src/device.rs:350-355 | as written, a key converts to its enumeration discriminant, which no other key shares |
| VirtualKeys.FromKey | src/device.rs:350-355 | with the corrected keypad codes, a key converts to its Win32 virtual key, which no other key shares |
| VirtualKeys.FromKeyNumberings | src/device.rs:241-255 | the two conversions agree on every key but `NumDecimal` and `NumDiv`, which give `VK_SEPARATOR`/`VK_DECIMAL` as written and `VK_DECIMAL`/`VK_DIVIDE` corrected |
| VirtualKeys.FromCharSpec | src/device.rs:292-300 | as written, `from_char` maps '0'..='8' and 'A'..='Y' to the digit and letter keys, and nothing else |
| VirtualKeys.FromCharRangeEnds | src/device.rs:430-441 | as written, '9', 'Z' and '!' give `None`, while '0' and 'Y' give their keys |
| VirtualKeys.FromCharInclusiveSpec | src/device.rs:292-300 | the intended `from_char` maps exactly '0'..='9' and 'A'..='Z' to their keys |
| VirtualKeys.FKey | src/device.rs:303-305 | `f(n)` is `Some(F(n))` exactly when 1 <= n <= 24 |
| VirtualKeys.KeyEqAsWrittenSpec | src/device.rs:317-327 | as written, a code equals Shift, Ctrl or Alt exactly when it is the `From` code of that modifier's left or right key, and any other key exactly when it is that key's `From` code (its discriminant) |
| VirtualKeys.KeyEqSpec | src/device.rs:317-327 | the same comparison over the corrected keypad codes |
| VirtualKeys.KeyEqNumberings | src/device.rs:317-327 | the two comparisons agree for every key but `NumDecimal` and `NumDiv` |
| VirtualKeys.KeyEqKeypad | src/device.rs:241-255 | as written, the decimal-point code compares equal to `NumDiv` and not to `NumDecimal`; corrected, the decimal-point and divide codes equal their own keys |
| VirtualKeys.KeyCodeEqIgnoresScanCode | src/device.rs:336-348 | in both numberings a key code compares with a key exactly as its virtual key does; the scan code plays no part |
| VirtualKeys.FromKeyEq | src/device.rs:329-334 | with the corrected codes, a key's own code compares equal to it unless it is a generic modifier |
| VirtualKeys.ModifierSides | src/device.rs:452-460 | LShift/RShift, LCtrl/RCtrl and LAlt/RAlt compare equal to Shift, Ctrl and Alt |
| Geometry.DefaultDpiIdentity | awita/src/geometry.rs:66-79 | at 96 DPI both conversions are the identity |
| Geometry.DoubleDpi | awita/src/geometry.rs:66-79 | at 192 DPI, logical to physical doubles and physical to logical halves with truncation toward zero |
| Geometry.ValueRoundTrip | awita/src/geometry.rs:66-79 | at any whole multiple of 96 DPI, converting to physical and back is the identity |
| Geometry.PhysicalRoundTripLossy | awita/src/geometry.rs:74-79 | physical to logical then back is lossy: 1 at 192 DPI returns as 0 |
| Geometry.ToPhysical | awita/src/geometry.rs:224-300 | `to_physical` gives a physical value of the same shape: each coordinate of a logical point or size becomes `a * dpi / 96` truncated, and a physical value is returned unchanged |
| Geometry.ToLogical | awita/src/geometry.rs:198-275 | `to_logical` gives a logical value of the same shape: each coordinate of a physical point or size becomes `a * 96 / dpi` truncated, and a logical value is returned unchanged |
| Geometry.MeasuredRoundTrip | awita/src/geometry.rs:93-162 | a logical point or size survives `to_physical` then `to_logical` at any multiple of 96 DPI |
| Geometry.PointDoubleDpi | awita/src/geometry.rs:322-344 | at 192 DPI a logical point doubles, and a doubled physical point halves back |
| Ime.AttrFromByte | src/ime.rs:254-262 | an attribute byte decodes exactly when it is at most 5 |
| Ime.AttrRoundTrip | src/ime.rs:254-262 | decoding a byte and encoding the attribute are inverse to each other |
| Ime.NewComposition | src/ime.rs:24-31 | `Composition::new` zips the characters with the attributes: min-length, i-th char with i-th attribute |
| Ime.CompositionAccessors | src/ime.rs:34-64 | `is_empty` holds when either input is empty; `len` is at most the string's length; indexing gives the zipped pair |
| Ime.Utf16Lossy | src/ime.rs:230 | lossy decoding gives at most one character per unit, and none exactly for no units |
| Ime.Utf16RoundTrip | src/ime.rs:230 | decoding the UTF-16 encoding of a string gives the string back |
| Ime.GetString | src/ime.rs:221-236 | the string is present exactly when the byte length is at least 2; it is the lossy decoding of `byte_len / 2` units |
| Ime.DecodeAttrs | src/ime.rs:252-264 | the bytes decode exactly when all are valid attributes, one attribute per byte, each re-encoding to its byte |
| Ime.GetAttrs | src/ime.rs:238-265 | `None` on an error code; a panic exactly when some byte is not an attribute; otherwise one attribute per byte, each the attribute that byte encodes |
| Ime.GetCompositionString | src/ime.rs:267-276 | `GCS_COMPSTR` and `GCS_RESULTSTR` yield `CompStr` and `ResultStr` of the reply's string, or nothing without one; `GCS_COMPATTR` yields `CompAttr` of the decoded attributes, nothing on an error code, and panics exactly when `get_attrs` does; other indices yield nothing, and only the attribute query can panic |
| Ime.CandidateAccessors | src/ime.rs:78-103 | a candidate list is empty exactly when its list is, its length is the list's, indexing gives the i-th string and the selection is kept |
| Ime.CompStrOfEncoded | src/ime.rs:221-236 | the reply holding the UTF-16 of a non-empty string reads back as that `CompStr` |
| Ime.ImmContext.constructor | src/ime.rs:113-122 | a new context is disabled |
| Ime.ImmContext.Enable | src/ime.rs:128-133 | `enable` leaves the context enabled |
| Ime.ImmContext.Disable | src/ime.rs:135-140 | `disable` leaves the context disabled |
| Events.Newest | src/event.rs:45-52 | the buffer of an overflowing channel keeps `min(len, cap)` values |
| Events.PushedIsNewest | src/event.rs:55-57 | one send keeps the last `cap` values, the sent value last |
| Events.SendAllIsNewest | src/event.rs:55-57 | any run of sends leaves exactly the newest `cap` values of old buffer followed by sent values |
| Events.SendWithinCapacity | src/event.rs:45-57 | up to `cap` sends into an empty channel lose nothing and keep the order |
| Events.Channel.constructor | src/event.rs:45-52 | a new channel has the given positive capacity, an empty buffer and no active receiver |
| Events.Channel.Activate | src/event.rs:35-38 | activating a receiver keeps the buffer |
| Events.Channel.Send | src/event.rs:55-57 | a send pushes into the bounded buffer when a receiver is active and the channel is open; otherwise it is dropped |
| Events.Channel.Close | src/event.rs:35-38 | closing keeps what is queued |
| Events.Receiver.TryRecv | src/event.rs:20-32 | a missing channel or a drained closed channel gives `Closed`; a queued value is taken oldest first; an open empty channel gives `None` |
| Events.Receiver.Recv | src/event.rs:12-18 | the same, except that an open empty channel waits |
| Events.Close | src/event.rs:85-89 | `CloseRequest::close` posts exactly one destruction of its window |
| Events.CloseRequestChannel.Send | awita/src/procedure.rs:453-461 | the close request is delivered if the slot is free; it is refused once the receiver is dropped |
| Events.CloseRequestChannel.Recv | src/event.rs:103-105 | `recv` takes the queued request; with none, it waits while the sender lives and gives `Closed` after |
| Events.CloseRequestChannel.DropSender | src/event.rs:93-105 | dropping the sender keeps the queue |
| Events.CloseRequestChannel.DropReceiver | src/event.rs:93-105 | dropping the receiver keeps the queue |
| Registry.Emit | awita/src/procedure.rs:76-78 | a send appends to the log of its window only if the window is registered, and changes nothing else |
| Registry.Context.constructor | awita/src/ui_thread.rs:48-57 | the registry starts with no window, no cursor window, no size loop and nothing faulted |
| Registry.Context.Send | awita/src/procedure.rs:76-78 | `get_window` followed by a send is `Emit` on the registry |
| Registry.Context.Post | awita/src/procedure.rs:458-466 | posting appends exactly one item to the UI thread's queue |
| Window.NewBuilderDefaults | awita/src/window.rs:26-39 | the builder's defaults: empty title, origin, 640x480 logical, visible, arrow cursor, IME on with both windows visible, no drop files |
| Window.SetTitle | awita/src/window.rs:42-46 | `title` stores the title and changes no other field |
| Window.SetPosition | awita/src/window.rs:48-52 | `position` stores the position and changes no other field |
| Window.SetSize | awita/src/window.rs:54-61 | `size` stores the size and changes no other field |
| Window.SetVisible | awita/src/window.rs:63-67 | `visible` stores the visibility and changes no other field |
| Window.SetIcon | awita/src/window.rs:69-73 | `icon` stores the icon as `Some` and changes no other field |
| Window.SetCursor | awita/src/window.rs:75-79 | `cursor` stores the cursor (or none) and changes no other field |
| Window.SetIme | awita/src/window.rs:81-85 | `ime` stores the IME flag and changes no other field |
| Window.SetVisibleImeCompositionWindow | awita/src/window.rs:87-91 | `visible_ime_composition_window` stores the visibility and changes no other field |
| Window.SetVisibleImeCandidateWindow | awita/src/window.rs:93-97 | `visible_ime_candidate_window` stores the visibility and changes no other field |
| Window.SetAcceptDropFiles | awita/src/window.rs:99-103 | `accept_drop_files` stores the flag and changes no other field |
| Window.SettersCommute | awita/src/window.rs:42-102 | four pairs of setters of different fields commute: title and position, visibility and cursor, IME flag and drop files, and the two IME-window visibilities |
| Window.SettersLastWins | awita/src/window.rs:42-46 | of two settings of the title, and of the IME flag, the later one wins |
| Window.InitialState | awita/src/window.rs:230-258 | a new window's state takes the builder's cursor and IME settings, has no close-request subscriber and has sent nothing |
| Window.InitialCapacities | awita/src/window.rs:238-256 | every channel exists with its fixed non-zero capacity |
| Window.NewWindow | awita/src/window.rs:187-269 | a null handle is an error with the last error code and registers nothing; otherwise the window is registered with its IME enabled as the builder asks |
| Window.CreatedSpec | awita/src/window.rs:213-258 | creation registers only the new window and leaves every other window untouched |
| Window.Update | awita/src/window.rs:304-339 | a command changes the target window only, and only if it is registered; the retired logs, cursor slot, size-loop flag, posted work and faulted flag are kept |
| Window.SetWindowCursor | awita/src/window.rs:304-311 | `set_cursor` replaces the registered window's cursor |
| Window.SetWindowIme | awita/src/window.rs:314-325 | `set_ime` sets the registered window's IME flag |
| Window.SetImePosition | awita/src/window.rs:328-339 | `set_ime_position` stores the position converted to physical at the window's DPI |
| Window.UpdateOnlyTarget | awita/src/window.rs:304-311 | the command leaves other windows and the target's sent events alone, and is a no-op for an unknown window |
| Window.OnEvent | awita/src/window.rs:361-374 | a subscription exists exactly for a registered window's channel and has that channel's capacity |
| Window.OnEventAfterCreate | awita/src/window.rs:361-374 | after creation every channel of the new window can be subscribed at its fixed capacity |
| Window.CloseRequestReceiver | awita/src/window.rs:466-476 | installs the close-request subscriber on a registered window that has none; a second subscriber fails the `assert!` and marks the registry faulted; an unknown window is left alone |
| Procedure.ToU32 | awita/src/procedure.rs:278 | `as u32` keeps the low 32 bits: identity on 0..2^32, plus 2^32 on -2^32..-1 |
| Procedure.WordsRoundTrip | awita/src/procedure.rs:14-20 | `loword` and `hiword` recover the two halves a word was made of |
| Procedure.WordsSplit | awita/src/procedure.rs:14-20 | every 32-bit value is made of its `loword` and `hiword` |
| Procedure.LowWord | awita/src/procedure.rs:34-36 | the button-state word is at most 0xFFFF |
| Procedure.HighWord | awita/src/procedure.rs:30-32 | the X-button word is at most 0xFFFF |
| Procedure.SignExtend | awita/src/procedure.rs:34-36 | `loword(..) as u32` keeps the low 16 bits of the word |
| Procedure.ExtendedFlags | awita/src/procedure.rs:34-36 | sign extension changes none of the five mouse-key flags |
| Procedure.GetMouseButtons | awita/src/procedure.rs:47-66 | the set holds Left, Right, Middle, Ex0 and Ex1 exactly when MK_LBUTTON, MK_RBUTTON, MK_MBUTTON, MK_XBUTTON1 and MK_XBUTTON2 are set, and no other extra button |
| Procedure.ButtonOfFlag | awita/src/procedure.rs:47-66 | each button is in the set exactly when its flag is in the low word |
| Procedure.NoButtonFlagsNoButtons | awita/src/procedure.rs:47-66 | with none of the five flags, the set is empty |
| Procedure.LeftAndSecondExtra | awita/src/procedure.rs:47-66 | low word 0x45 (left, shift, second X button) gives `[Left, Ex1]` |
| Procedure.XButtonToEx | awita/src/procedure.rs:42-45 | an X-button word n in 1..=29 gives `Ex(n - 1)`; any other n panics (underflow or the `n <= 28` assertion) |
| Procedure.XButtonExamples | awita/src/procedure.rs:42-45 | XBUTTON1 gives Ex0, XBUTTON2 gives Ex1, and 0 panics |
| Procedure.KeyState | awita/src/procedure.rs:183-187 | key-down messages are Pressed and key-up messages are Released |
| Procedure.KeystrokeRoundTrip | awita/src/procedure.rs:188-216 | the scan code, extended bit and previous state decode the fields a keystroke LPARAM was packed from |
| Procedure.VKeySides | awita/src/procedure.rs:190-207 | Ctrl and Alt become their left or right key by the extended bit; other keys except Shift pass unchanged |
| Procedure.DecodeKey | awita/src/procedure.rs:183-216 | the event is released exactly for the key-up messages, carries the sided virtual key `VKey`, the LPARAM's one-byte scan code and its previous state |
| Procedure.CharFromU32 | awita/src/procedure.rs:225-233 | a character exists exactly for the Unicode scalar values, and it has that value |
| Procedure.ImeSetContextBits | awita/src/procedure.rs:241-248 | a flag survives unless it shows a hidden composition window (bit 31) or hidden candidate windows (bits 0-3) |
| Procedure.WindowOf | awita/src/procedure.rs:85-88 | `get_window` finds exactly the registered windows' states |
| Procedure.Applied | awita/src/procedure.rs:136-147 | a stateless handler appends at most its one event to its own window and changes nothing else |
| Procedure.MouseInputReaction | awita/src/procedure.rs:128-148 | `mouse_input` returns 0 and sends exactly when the window is registered |
| Procedure.React | awita/src/procedure.rs:72-486 | a stateless handler sends only to a registered window |
| Procedure.GetWheelDelta | awita/src/procedure.rs:68-70 | the delta is bits 16 to 31 of the WPARAM read as a signed 16-bit number: equal to them modulo 2^16, negative exactly when bit 31 is set |
| Procedure.MouseWheelReaction | awita/src/procedure.rs:150-175 | `mouse_wheel` sends exactly when the window is registered, returning 0, and otherwise hands the message to `DefWindowProcW`; the event is vertical exactly for WM_MOUSEWHEEL and carries the wheel delta and the mouse state |
| Procedure.ButtonMessages | awita/src/procedure.rs:498-546 | the left, right and middle button messages send a `MouseInput` with that button, pressed for the down messages and released for the up ones, and the mouse state of WPARAM and LPARAM; they return 0, and send nothing to an unregistered window |
| Procedure.WheelMessages | awita/src/procedure.rs:150-175 | WM_MOUSEWHEEL and WM_MOUSEHWHEEL send `MouseWheel` and `MouseHWheel` with the wheel delta and mouse state and return 0; for an unregistered window nothing changes and the message goes to `DefWindowProcW` |
| Procedure.PaintMessage | awita/src/procedure.rs:72-82 | WM_PAINT returns 0 and sends `Draw` to a registered window; for an unregistered one nothing changes |
| Procedure.MoveMessage | awita/src/procedure.rs:327-338 | WM_MOVE returns 0 and sends `Moved` with the signed point packed in the LPARAM; for an unregistered window nothing changes |
| Procedure.DpiChangedMessage | awita/src/procedure.rs:368-385 | WM_DPICHANGED returns 0 and sends `DpiChanged` with the window's DPI; for an unregistered window nothing changes |
| Procedure.DropFilesMessage | awita/src/procedure.rs:421-445 | WM_DROPFILES returns 0 and sends `DropFiles` with the dropped paths; for an unregistered window nothing changes |
| Procedure.ImeStartCompositionMessage | awita/src/procedure.rs:251-269 | WM_IME_STARTCOMPOSITION hands the message to `DefWindowProcW` and sends `ImeStartComposition` to a registered window; for an unregistered one nothing changes |
| Procedure.ImeEndCompositionMessage | awita/src/procedure.rs:307-325 | WM_IME_ENDCOMPOSITION hands the message to `DefWindowProcW` and sends `ImeEndComposition` with the result string (none without one) to a registered window; for an unregistered one nothing changes |
| Procedure.ImeSetContextMessage | awita/src/procedure.rs:235-249 | WM_IME_SETCONTEXT changes nothing; for a registered window it hands `DefWindowProcW` the LPARAM with the flags of the hidden IME windows cleared, for an unregistered one the LPARAM as it came |
| Procedure.DpiScaledSizeMessage | awita/src/procedure.rs:387-406 | WM_GETDPISCALEDSIZE changes nothing and returns 1 |
| Procedure.PassedOnMessages | awita/src/procedure.rs:483-486 | WM_NCCREATE, and every message `window_proc` has no arm for (line 576), changes nothing and goes to `DefWindowProcW` with its own WPARAM and LPARAM |
| Procedure.WmMouseMove | awita/src/procedure.rs:83-109 | a mouse move changes only the cursor slot and its own window's log, by at most one event |
| Procedure.WmMouseLeave | awita/src/procedure.rs:111-126 | a mouse leave changes only the cursor slot and its own window's log |
| Procedure.WmXButton | awita/src/procedure.rs:519-553 | an X-button message changes only the faulted flag and its own window's log |
| Procedure.WmEnterSizeMove | awita/src/procedure.rs:350-353 | entering the size loop sets `resizing`, changes nothing else and defers to `DefWindowProcW` |
| Procedure.WmExitSizeMove | awita/src/procedure.rs:355-366 | exiting the size loop clears `resizing` and changes only its own window's log |
| Procedure.SendComposition | awita/src/procedure.rs:289-299 | the composition, with the queried attributes and the candidates, is sent exactly when there is text and the attributes come back, and otherwise the state is unchanged; it panics exactly when there is text and the attribute query panics |
| Procedure.WmImeCompositionWith | awita/src/procedure.rs:271-305 | a composition message changes only the faulted flag and its own window's log, by at most two events |
| Procedure.CompositionOutcome | awita/src/procedure.rs:271-305 | the result block sends the result string and the composition block the composition string (with the candidates), each with the attributes, when its GCS_ flag is set and its string is there; a panic of the attribute query sets `faulted` and returns 0; otherwise the result is `DefWindowProcW` exactly when the composition window is visible, and 0 when it is hidden |
| Procedure.WmImeComposition | awita/src/procedure.rs:271-305 | for an unregistered window nothing changes and the message goes to `DefWindowProcW`; for a registered one the result block sees the decoded result string itself (corrected), so `CompositionOutcome` gives its events and result |
| Procedure.ImeCompositionMessage | awita/src/procedure.rs:563 | `window_proc` handles WM_IME_COMPOSITION as `WmImeComposition` does, with the result string decoded from its reply |
| Procedure.WmImeCompositionAsWritten | awita/src/procedure.rs:278-288 | as written, where the `GCS_RESULTSTR` block expects a `CompStr`: the same frame |
| Procedure.WmClose | awita/src/procedure.rs:447-469 | a close changes only the posted work and its own window's log |
| Procedure.WmDestroy | awita/src/procedure.rs:471-481 | a destroy removes exactly its window and changes only the retired logs and the posted work besides |
| Procedure.Step | awita/src/procedure.rs:488-585 | the dispatch, with the `WM_SYSKEYUP` and `GCS_RESULTSTR` arms corrected: only a close or a destroy posts work, and a message without a stateful handler moves neither the cursor slot nor `resizing` |
| Procedure.StatefulStep | awita/src/procedure.rs:494-577 | of the messages handled with the registry, only the X-button and IME-composition ones can panic, and only close and destroy post work |
| Procedure.SysKeyUpAsWritten | awita/src/procedure.rs:559 | the `WM_SYSKEYUP` arm as written: it appends the `KeyInput` decoded as `WM_SYSKEYDOWN` to its own window and changes nothing else |
| Procedure.StepFrame | awita/src/procedure.rs:488-585 | any message but WM_DESTROY appends at most two events to its own window and touches no other; WM_DESTROY removes its window |
| Procedure.UnregisteredWindow | awita/src/procedure.rs:488-585 | a message for an unregistered window changes no window, no retired log and not the cursor slot |
| Procedure.CursorSlot | awita/src/procedure.rs:93-100 | the cursor slot is set only by the first move into a registered window and cleared only by a leave |
| Procedure.CursorMoveEvent | awita/src/procedure.rs:83-109 | the first move is reported as an entry and claims the cursor slot, later moves are reported as moves, and both return 0; for an unregistered window nothing changes and the message goes to `DefWindowProcW` |
| Procedure.CursorLeaveEvent | awita/src/procedure.rs:111-126 | a leave clears the slot, reports the cursor's current position with the message's buttons and returns 0; for an unregistered window nothing changes and the message goes to `DefWindowProcW` |
| Procedure.EnterMoveLeave | awita/src/procedure.rs:83-126 | enter, move and leave reach the window in that order, and the slot ends empty |
| Procedure.ResizingFlag | awita/src/procedure.rs:350-366 | `resizing` is set by WM_ENTERSIZEMOVE, cleared by WM_EXITSIZEMOVE (which sends the final size) and kept by all else; both size-loop messages go on to `DefWindowProcW` |
| Procedure.CloseOutcome | awita/src/procedure.rs:447-469 | the window is destroyed exactly when there is no subscriber or delivery failed; otherwise the request is sent; unknown windows go to `DefWindowProcW` |
| Procedure.DestroyOutcome | awita/src/procedure.rs:471-481 | `Closed` is the window's last event, the window leaves the registry, the quit message is posted exactly when none remain, and the result is 0 |
| Procedure.CloseLastWindow | awita/src/procedure.rs:447-481 | closing and destroying the last window without a subscriber posts its destruction and then the quit message |
| Procedure.KeyMessages | awita/src/procedure.rs:556-559 | a key message sends one `KeyInput`: released exactly for the key-up messages, with the LPARAM's scan code and previous state |
| Procedure.SysKeyUpReportedPressed | awita/src/procedure.rs:559 | as written, WM_SYSKEYUP is reported as a press |
| Procedure.ResultStringDroppedAsWritten | awita/src/procedure.rs:278-288 | as written, the result-string block never sends, so a result-only message changes nothing |
| Procedure.ResultStringSent | awita/src/procedure.rs:278-288 | with the result string read as such, the finished text is sent with its attributes and no candidates |
| Procedure.Activation | awita/src/procedure.rs:408-419 | WM_ACTIVATE reports a deactivation exactly when the low word is 0, and returns 0 |
| Procedure.SizeReported | awita/src/procedure.rs:340-348 | WM_SIZE reports the width and height packed in the LPARAM, and returns 0 |
| Procedure.CharReported | awita/src/procedure.rs:225-233 | WM_CHAR sends the character whose scalar value is the low 32 bits of the WPARAM, sends nothing for a surrogate or a value past U+10FFFF, and returns 0 |
| Procedure.XButtonPanic | awita/src/procedure.rs:519-553 | an invalid X-button word only marks the registry faulted; a valid one sends the extra button's input to a registered window, changes nothing for an unregistered one, and returns 0 |
| WindowProc.MouseMoveProc | awita/src/procedure.rs:83-109 | updating the context in place yields exactly the state and result of `WmMouseMove` |
| WindowProc.MouseLeaveProc | awita/src/procedure.rs:111-126 | in place, exactly `WmMouseLeave` |
| WindowProc.XButtonProc | awita/src/procedure.rs:519-553 | in place, exactly `WmXButton` |
| WindowProc.EnterSizeMoveProc | awita/src/procedure.rs:350-353 | in place, exactly `WmEnterSizeMove` |
| WindowProc.ExitSizeMoveProc | awita/src/procedure.rs:355-366 | in place, exactly `WmExitSizeMove` |
| WindowProc.SendCompositionProc | awita/src/procedure.rs:289-299 | in place, exactly `SendComposition`: sent exactly when there is text and the attributes come back, unchanged otherwise, panic included |
| WindowProc.ImeCompositionProc | awita/src/procedure.rs:271-305 | in place, exactly `WmImeComposition`, so with the events and result `CompositionOutcome` states |
| WindowProc.CloseProc | awita/src/procedure.rs:447-469 | in place, exactly `WmClose` |
| WindowProc.DestroyProc | awita/src/procedure.rs:471-481 | in place, exactly `WmDestroy` |
| WindowProc.Dispatch | awita/src/procedure.rs:488-585 | `window_proc` on the context produces exactly the state and result of `Step`, so it takes the corrected `WM_SYSKEYUP` and `GCS_RESULTSTR` arms |

## Left out

- The UI thread itself is not modelled: its message loop, the closures it runs and its tokio runtime (awita/src/ui_thread.rs). The `Context` of awita/src/ui_thread.rs:41-45 holds the runtime, the method queue and the unwind slot, not a window registry; the `get_window`, `insert_window`, `remove_window` and `window_map_is_empty` that procedure.rs and window.rs call live elsewhere in the crate, and they are modelled by map lookup, insertion and removal.
- The payload of a caught panic is not kept. Only the fact that a handler panicked is recorded, as `faulted`.
- Win32 calls are not modelled, because they are foreign code. Their answers are inputs. This covers `BeginPaint`/`EndPaint`, `TrackMouseEvent`, `SetCursor`, `GetCursorPos`/`ScreenToClient`, `GetClientRect`, `DragQueryFileW`, `MapVirtualKeyW`, `GetDpiForWindow`, `ImmGetCompositionStringW`, `EnableNonClientDpiScaling` and `DefWindowProcW` (whose result is an opaque value).
- `get_candidate_list` is not modelled, because it walks raw memory returned by the IME. The candidate list is an input.
- Procedure.React: for WM_GETDPISCALEDSIZE only the result 1 is modelled. Computing the scaled size and storing it in the SIZE the LPARAM addresses is not.
- Procedure.React: for WM_DPICHANGED only the event with the new DPI is modelled. Reading the suggested RECT and calling `SetWindowPos` are not.
- Moving the IME composition and candidate windows (`Imc::set_*_position`) is not modelled, because it only calls the IME. WM_IME_STARTCOMPOSITION is modelled as its event.
- Procedure.Step: dispatches `WM_SYSKEYUP` and the `GCS_RESULTSTR` block in their corrected form (see Findings); the arms as written are `Procedure.SysKeyUpAsWritten` and `Procedure.WmImeCompositionAsWritten`, which `Step` and `WindowProc.Dispatch` do not call.
- Procedure.WmClose: `block_on` is not modelled. Only whether the close request was delivered is kept, as an input, because the waiting belongs to the async runtime.
- Icon loading, `DragAcceptFiles` and `ShowWindow` in `Window::new` are not modelled, because they are Win32 calls.
- Window.NewWindow: ignores the builder's `visibility`, as the source does: `Window::new` always calls `ShowWindow(hwnd, SW_SHOW)` (awita/src/window.rs:229) and reads no visibility, so `Builder::visible(false)` has no effect on the window.
- `Builder::build` and the `Debug` of `Builder` are not modelled; `build` only forwards to `Window::new`.
- The window commands `show`, `hide`, `redraw`, `close_request`, `close`, `raw_handle` and `dpi` are not modelled. Each one only posts a single Win32 call.
- The geometry `cast` methods are not modelled, because they convert between numeric types.
- Geometry.ToPhysicalValue: does not model `i32` overflow of `a * dpi`, because the integers are unbounded.
- The internals of `async_broadcast` are not modelled beyond what one receiver observes of the bounded buffer: the wakers, several receivers and `Sender` clones.
- `utility.rs`, `resource.rs` and `error.rs` are not part of this model. They cover the window-size adjustment, the cursor and icon resources, and the conversion of error codes.
- Events in flight after a window is destroyed are kept in `retired`; when receivers themselves are dropped is not modelled.

## Findings

| source | as written | input that shows it | evidently intended | confidence | as-written member | corrected member |
|---|---|---|---|---|---|---|
| src/device.rs:241-255 | the keypad keys after `NumPad0 = 0x60` take implicit consecutive values, so `NumDecimal` is 0x6C and `NumDiv` is 0x6E | `VirtualKeyCode::from(VirtualKey::NumDiv)` is 0x6E, which is `VK_DECIMAL` | `NumDecimal` = `VK_DECIMAL` (0x6E) and `NumDiv` = `VK_DIVIDE` (0x6F) | not executed | VirtualKeys.NumPadAsWritten | VirtualKeys.NumPadCodes |
| awita/src/procedure.rs:559 | `WM_SYSKEYUP` is dispatched to `key_input` with `WM_SYSKEYDOWN` | releasing F10 or an Alt-held key (WM_SYSKEYUP) | the message is passed through, so the key is reported Released | not executed | Procedure.SysKeyUpReportedPressed | Procedure.KeyMessages |
| awita/src/procedure.rs:278-288 | the `GCS_RESULTSTR` block matches `CompositionString::CompStr`, but a result-string query yields `ResultStr` | WM_IME_COMPOSITION with LPARAM `GCS_RESULTSTR` and a non-empty result string | the finished text is sent on the composition channel | not executed | Procedure.ResultStringDroppedAsWritten | Procedure.ResultStringSent |
| src/device.rs:292-300 | `from_char` searches the half-open ranges `'0'..'9'` and `'A'..'Z'` | `from_char('9')` and `from_char('Z')` give `None` | the inclusive ranges `'0'..='9'` and `'A'..='Z'` | not executed | VirtualKeys.FromCharRangeEnds | VirtualKeys.FromCharInclusiveSpec |
