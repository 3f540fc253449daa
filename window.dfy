/**
 * awita/src/window.rs: the window `Builder`, and the commands a `Window`
 * posts to the UI thread that create a window or change its entry in the
 * registry. What the Win32 calls return (the created handle, the thread's
 * last error, the window's DPI) is passed in.
 */
module Window {
  import opened Common
  import opened Win32
  import opened Geometry
  import opened Registry

  /** `Icon`: a resource id or a file. */
  datatype Icon = Resource(id: nat) | File(path: string)

  /** The builder's size: anything with a physical size, that is a logical
      or a physical size. */
  type SizeValue = m: Measured | m.unit != Screen && m.value.OfSize? witness Measured(Logical, OfSize(Size(0, 0)))

  datatype Builder = Builder(
    title: string,
    position: Point,
    size: SizeValue,
    visibility: bool,
    icon: Option<Icon>,
    cursor: Option<Cursor>,
    enableIme: bool,
    imeCompositionWindowVisibility: bool,
    imeCandidateWindowVisibility: bool,
    acceptDropFiles: bool)

  /** `Builder::new`. */
  function NewBuilder(): Builder {
    Builder("", Point(0, 0), Measured(Logical, OfSize(Size(640, 480))), true, None, Some(Arrow),
            true, true, true, false)
  }

  /** The defaults: an untitled, visible window at the origin of 640 by 480
      logical units with the arrow cursor, IME on with both IME windows
      shown, and no dropped files accepted. */
  lemma NewBuilderDefaults()
    ensures NewBuilder().title == [] && NewBuilder().position == Point(0, 0)
    ensures ToPhysical(NewBuilder().size, DefaultDpi) == Measured(Physical, OfSize(Size(640, 480)))
    ensures ToPhysical(NewBuilder().size, 2 * DefaultDpi) == Measured(Physical, OfSize(Size(1280, 960)))
    ensures NewBuilder().visibility && NewBuilder().icon.None? && NewBuilder().cursor == Some(Arrow)
    ensures NewBuilder().enableIme && NewBuilder().imeCompositionWindowVisibility
    ensures NewBuilder().imeCandidateWindowVisibility && !NewBuilder().acceptDropFiles
  {
    DefaultDpiIdentity(640);
    DefaultDpiIdentity(480);
    DoubleDpi(640);
    DoubleDpi(480);
  }

  // Each setter stores its argument and changes no other field: putting
  // the old value back gives the builder it started from.

  function SetTitle(b: Builder, title: string): (r: Builder)
    ensures r.title == title && r.(title := b.title) == b
  {
    b.(title := title)
  }

  function SetPosition(b: Builder, position: Point): (r: Builder)
    ensures r.position == position && r.(position := b.position) == b
  {
    b.(position := position)
  }

  function SetSize(b: Builder, size: SizeValue): (r: Builder)
    ensures r.size == size && r.(size := b.size) == b
  {
    b.(size := size)
  }

  function SetVisible(b: Builder, visibility: bool): (r: Builder)
    ensures r.visibility == visibility && r.(visibility := b.visibility) == b
  {
    b.(visibility := visibility)
  }

  /** The icon is stored wrapped in `Some`. */
  function SetIcon(b: Builder, icon: Icon): (r: Builder)
    ensures r.icon == Some(icon) && r.(icon := b.icon) == b
  {
    b.(icon := Some(icon))
  }

  function SetCursor(b: Builder, cursor: Option<Cursor>): (r: Builder)
    ensures r.cursor == cursor && r.(cursor := b.cursor) == b
  {
    b.(cursor := cursor)
  }

  function SetIme(b: Builder, enable: bool): (r: Builder)
    ensures r.enableIme == enable && r.(enableIme := b.enableIme) == b
  {
    b.(enableIme := enable)
  }

  function SetVisibleImeCompositionWindow(b: Builder, visibility: bool): (r: Builder)
    ensures r.imeCompositionWindowVisibility == visibility
    ensures r.(imeCompositionWindowVisibility := b.imeCompositionWindowVisibility) == b
  {
    b.(imeCompositionWindowVisibility := visibility)
  }

  function SetVisibleImeCandidateWindow(b: Builder, visibility: bool): (r: Builder)
    ensures r.imeCandidateWindowVisibility == visibility
    ensures r.(imeCandidateWindowVisibility := b.imeCandidateWindowVisibility) == b
  {
    b.(imeCandidateWindowVisibility := visibility)
  }

  function SetAcceptDropFiles(b: Builder, flag: bool): (r: Builder)
    ensures r.acceptDropFiles == flag && r.(acceptDropFiles := b.acceptDropFiles) == b
  {
    b.(acceptDropFiles := flag)
  }

  /** The order in which setters of different fields are applied does not
      matter. */
  lemma SettersCommute(b: Builder, t: string, p: Point, v: bool, c: Option<Cursor>, ime: bool, f: bool)
    ensures SetTitle(SetPosition(b, p), t) == SetPosition(SetTitle(b, t), p)
    ensures SetVisible(SetCursor(b, c), v) == SetCursor(SetVisible(b, v), c)
    ensures SetIme(SetAcceptDropFiles(b, f), ime) == SetAcceptDropFiles(SetIme(b, ime), f)
    ensures SetVisibleImeCompositionWindow(SetVisibleImeCandidateWindow(b, v), f)
         == SetVisibleImeCandidateWindow(SetVisibleImeCompositionWindow(b, f), v)
  {
  }

  /** Of two settings of one field the later one wins. */
  lemma SettersLastWins(b: Builder, t: string, u: string, ime: bool)
    ensures SetTitle(SetTitle(b, u), t) == SetTitle(b, t)
    ensures SetIme(SetIme(b, !ime), ime) == SetIme(b, ime)
  {
  }

  // ---------------------------------------------------------------------
  // The registry entry of a new window
  // ---------------------------------------------------------------------

  /** The capacity each channel is created with: 8 for drawing and the
      cursor entering or leaving, 128 for the streams of cursor moves,
      window moves and sizing, 64 for mouse buttons, 256 for keys and
      characters, 1 for everything else. */
  function ChannelCapacity(c: ChannelName): nat {
    match c
    case DrawChannel | CursorEnteredChannel | CursorLeavedChannel => 8
    case CursorMovedChannel | MovedChannel | SizingChannel => 128
    case MouseInputChannel => 64
    case KeyInputChannel | CharInputChannel => 256
    case _ => 1
  }

  /** The channels of a `WindowState` as `Window::new` creates them. */
  const Capacities: map<ChannelName, nat> := map[
    DrawChannel := 8, CursorEnteredChannel := 8, CursorLeavedChannel := 8,
    CursorMovedChannel := 128, MouseInputChannel := 64, KeyInputChannel := 256,
    CharInputChannel := 256, ImeStartCompositionChannel := 1, ImeCompositionChannel := 1,
    ImeEndCompositionChannel := 1, MovedChannel := 128, SizingChannel := 128,
    SizedChannel := 1, ActivatedChannel := 1, InactivatedChannel := 1,
    DpiChangedChannel := 1, DropFilesChannel := 1, ClosedChannel := 1]

  /** The `WindowState` inserted for a new window: the builder's cursor and
      IME settings, no close-request subscriber, the IME position at the
      origin and nothing sent yet. */
  function InitialState(b: Builder): (w: WindowState)
    ensures w.cursor == b.cursor && w.imeEnabled == b.enableIme
    ensures w.imeCompositionWindowVisibility == b.imeCompositionWindowVisibility
    ensures w.imeCandidateWindowVisibility == b.imeCandidateWindowVisibility
    ensures !w.closeRequest && w.imePosition == Point(0, 0) && w.log == []
  {
    WindowState(b.cursor, b.imeCompositionWindowVisibility, b.imeCandidateWindowVisibility,
                b.enableIme, Point(0, 0), Capacities, false, [])
  }

  /** Every channel of a new window exists, with its fixed capacity, and
      none has capacity 0. */
  lemma InitialCapacities(b: Builder, c: ChannelName)
    ensures c in InitialState(b).capacities
    ensures InitialState(b).capacities[c] == ChannelCapacity(c) > 0
  {
  }

  /** `Window::new`, run on the UI thread: `hwnd` is what `CreateWindowExW`
      returned and `lastError` the thread's last error. A null handle is an
      error and registers nothing; otherwise the window is registered with
      its initial state, its IME enabled as the builder asks. */
  method NewWindow(ctx: Context, b: Builder, hwnd: Handle, lastError: int) returns (r: Result<Handle>)
    modifies ctx
    ensures r == if hwnd == NullHandle then Err(Api(lastError)) else Ok(hwnd)
    ensures ctx.Snapshot() == Created(old(ctx.Snapshot()), b, hwnd)
  {
    if hwnd == NullHandle {
      return Err(Api(lastError));
    }
    ctx.windows := ctx.windows[hwnd := InitialState(b).(imeEnabled := false)];
    if b.enableIme {
      ctx.windows := ctx.windows[hwnd := ctx.windows[hwnd].(imeEnabled := true)];
    } else {
      ctx.windows := ctx.windows[hwnd := ctx.windows[hwnd].(imeEnabled := false)];
    }
    r := Ok(hwnd);
  }

  /** The registry after `Window::new` as a function. */
  function Created(s: State, b: Builder, hwnd: Handle): State {
    if hwnd == NullHandle then s else s.(windows := s.windows[hwnd := InitialState(b)])
  }

  /** A created window is registered and every other window is untouched;
      a failed creation changes nothing. */
  lemma CreatedSpec(s: State, b: Builder, hwnd: Handle, g: Handle)
    ensures hwnd == NullHandle ==> Created(s, b, hwnd) == s
    ensures hwnd != NullHandle ==>
      hwnd in Created(s, b, hwnd).windows && Created(s, b, hwnd).windows[hwnd] == InitialState(b)
    ensures g != hwnd ==> (g in Created(s, b, hwnd).windows <==> g in s.windows)
    ensures g != hwnd && g in s.windows ==> Created(s, b, hwnd).windows[g] == s.windows[g]
  {
  }

  // ---------------------------------------------------------------------
  // Commands on a registered window
  // ---------------------------------------------------------------------

  /** Applies `f` to the state of `h` if it is registered. */
  function Update(s: State, h: Handle, f: WindowState -> WindowState): (r: State)
    ensures r.windows.Keys == s.windows.Keys
    ensures h in s.windows ==> r.windows[h] == f(s.windows[h])
    ensures forall g :: g in s.windows && g != h ==> r.windows[g] == s.windows[g]
    ensures r.retired == s.retired
    ensures r.entered == s.entered && r.resizing == s.resizing && r.posted == s.posted && r.faulted == s.faulted
  {
    if h in s.windows then s.(windows := s.windows[h := f(s.windows[h])]) else s
  }

  /** `Window::set_cursor`. */
  method SetWindowCursor(ctx: Context, h: Handle, cursor: Option<Cursor>)
    modifies ctx
    ensures ctx.Snapshot() == Update(old(ctx.Snapshot()), h, (w: WindowState) => w.(cursor := cursor))
  {
    if h in ctx.windows {
      ctx.windows := ctx.windows[h := ctx.windows[h].(cursor := cursor)];
    }
  }

  /** `Window::set_ime`: enables or disables the window's input context. */
  method SetWindowIme(ctx: Context, h: Handle, enable: bool)
    modifies ctx
    ensures ctx.Snapshot() == Update(old(ctx.Snapshot()), h, (w: WindowState) => w.(imeEnabled := enable))
  {
    if h in ctx.windows {
      ctx.windows := ctx.windows[h := ctx.windows[h].(imeEnabled := enable)];
    }
  }

  /** `Window::set_ime_position`: the position, logical or physical, is
      stored in physical pixels at the window's DPI `dpi`. */
  method SetImePosition(ctx: Context, h: Handle, position: Point, unit: Unit, dpi: int)
    requires unit != Screen
    modifies ctx
    ensures ctx.Snapshot() == Update(old(ctx.Snapshot()), h,
      (w: WindowState) => w.(imePosition := ToPhysical(Measured(unit, AtPoint(position)), dpi).value.p))
  {
    if h in ctx.windows {
      var physical := ToPhysical(Measured(unit, AtPoint(position)), dpi);
      ctx.windows := ctx.windows[h := ctx.windows[h].(imePosition := physical.value.p)];
    }
  }

  /** A command on one window changes that window's entry only, and on an
      unregistered handle changes nothing. */
  lemma UpdateOnlyTarget(s: State, h: Handle, c: Option<Cursor>, g: Handle)
    requires g != h && g in s.windows
    ensures Update(s, h, (w: WindowState) => w.(cursor := c)).windows[g] == s.windows[g]
    ensures h !in s.windows ==> Update(s, h, (w: WindowState) => w.(cursor := c)) == s
    ensures h in s.windows ==> Update(s, h, (w: WindowState) => w.(cursor := c)).windows[h].log == s.windows[h].log
  {
  }

  /** A receiver subscribed to a channel of a window. */
  datatype Subscription = Subscription(hwnd: Handle, channel: ChannelName, capacity: nat)

  /** `Window::on_event`: a subscription when the window is registered;
      otherwise the receiver has no channel, and every receive on it is
      `Err(Closed)`. */
  function OnEvent(s: State, h: Handle, c: ChannelName): (r: Option<Subscription>)
    ensures r.Some? <==> h in s.windows && c in s.windows[h].capacities
    ensures r.Some? ==> r.value.hwnd == h && r.value.channel == c && r.value.capacity == s.windows[h].capacities[c]
  {
    if h in s.windows && c in s.windows[h].capacities then Some(Subscription(h, c, s.windows[h].capacities[c]))
    else None
  }

  /** On a window just created, every channel can be subscribed to, with
      its fixed capacity. */
  lemma OnEventAfterCreate(s: State, b: Builder, hwnd: Handle, c: ChannelName)
    requires hwnd != NullHandle
    ensures OnEvent(Created(s, b, hwnd), hwnd, c) == Some(Subscription(hwnd, c, ChannelCapacity(c)))
  {
  }

  /** `Window::close_request_receiver`: installs the subscriber of a
      registered window, asserting there was none; a second subscriber is
      a panic on the UI thread. */
  method CloseRequestReceiver(ctx: Context, h: Handle)
    modifies ctx
    ensures h in old(ctx.windows) && old(ctx.windows)[h].closeRequest ==>
      ctx.Snapshot() == old(ctx.Snapshot()).(faulted := true)
    ensures !(h in old(ctx.windows) && old(ctx.windows)[h].closeRequest) ==>
      ctx.Snapshot() == Update(old(ctx.Snapshot()), h, (w: WindowState) => w.(closeRequest := true))
  {
    if h in ctx.windows {
      if ctx.windows[h].closeRequest {
        ctx.faulted := true;
      } else {
        ctx.windows := ctx.windows[h := ctx.windows[h].(closeRequest := true)];
      }
    }
  }
}
