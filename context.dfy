/**
 * The UI thread's registry of windows, as the window procedure and the
 * window commands see it: the state kept per window handle, the window the
 * cursor is in, whether a size/move loop is running, the work posted to
 * the UI thread, and whether a handler panicked.
 *
 * A window's broadcast channels are represented by the events sent on
 * them, in order (the window's `log`), and by the capacity each channel
 * was created with; how a receiver sees one channel is modelled in module
 * Events.
 */
module Registry {
  import opened Common
  import opened Win32
  import Geometry
  import Events
  import Ime

  /** The cursors of the resource table. */
  datatype Cursor =
    | AppStarting | Arrow | Cross | Hand | Help | IBeam | No | SizeAll
    | SizeNESW | SizeNS | SizeNWSE | SizeWE | SizeUpArrow | Wait

  /** An event sent on one of a window's channels. */
  datatype Event =
    | Draw
    | CursorEntered(state: Events.MouseState)
    | CursorLeaved(state: Events.MouseState)
    | CursorMoved(state: Events.MouseState)
    | MouseInput(input: Events.MouseInput)
    | MouseWheel(wheel: Events.MouseWheel)
    | MouseHWheel(wheel: Events.MouseWheel)
    | KeyInput(key: Events.KeyInput)
    | CharInput(c: char)
    | ImeStartComposition
    | ImeComposition(composition: Ime.Composition, candidates: Option<Ime.CandidateList>)
    | ImeEndComposition(result: Option<string>)
    | Moved(position: Geometry.Point)
    | Sizing(size: Geometry.Size)
    | Sized(size: Geometry.Size)
    | Activated
    | Inactivated
    | DpiChanged(dpi: nat)
    | DropFiles(files: Events.DropFiles)
    | CloseRequested(request: Events.CloseRequest)
    | Closed

  /** The broadcast channels of a `WindowState`. */
  datatype ChannelName =
    | DrawChannel | CursorEnteredChannel | CursorLeavedChannel | CursorMovedChannel
    | MouseInputChannel | KeyInputChannel | CharInputChannel
    | ImeStartCompositionChannel | ImeCompositionChannel | ImeEndCompositionChannel
    | MovedChannel | SizingChannel | SizedChannel | ActivatedChannel | InactivatedChannel
    | DpiChangedChannel | DropFilesChannel | ClosedChannel

  /** `WindowState`. `imeEnabled` is the flag of its `ImmContext`;
      `closeRequest` says whether a close-request subscriber is installed. */
  datatype WindowState = WindowState(
    cursor: Option<Cursor>,
    imeCompositionWindowVisibility: bool,
    imeCandidateWindowVisibility: bool,
    imeEnabled: bool,
    imePosition: Geometry.Point,
    capacities: map<ChannelName, nat>,
    closeRequest: bool,
    log: seq<Event>)

  /** The registry as a value. `retired` keeps the events sent to each
      destroyed window, which its receivers can still read. */
  datatype State = State(
    windows: map<Handle, WindowState>,
    retired: map<Handle, seq<Event>>,
    entered: Option<Handle>,
    resizing: bool,
    posted: seq<Posted>,
    faulted: bool)

  /** Sends `e` on a channel of window `h`, if `h` is registered. */
  function Emit(s: State, h: Handle, e: Event): (r: State)
    ensures r.retired == s.retired && r.entered == s.entered && r.resizing == s.resizing && r.posted == s.posted && r.faulted == s.faulted
    ensures r.windows.Keys == s.windows.Keys
    ensures forall g :: g in s.windows && g != h ==> r.windows[g] == s.windows[g]
    ensures h in s.windows ==> r.windows[h] == s.windows[h].(log := s.windows[h].log + [e])
  {
    if h in s.windows then s.(windows := s.windows[h := s.windows[h].(log := s.windows[h].log + [e])])
    else s
  }

  /** The UI thread's `Context`. */
  class Context {
    var windows: map<Handle, WindowState>
    /** The channels of destroyed windows, kept alive by their receivers. */
    var retired: map<Handle, seq<Event>>
    /** `entered_cursor_window`. */
    var entered: Option<Handle>
    /** `resizing`. */
    var resizing: bool
    /** Set when a handler panicked; the UI thread then unwinds. */
    var faulted: bool
    /** Where `UiThread::post` and `PostQuitMessage` put their work. */
    const ui: Events.UiQueue

    constructor (ui: Events.UiQueue)
      ensures windows == map[] && retired == map[] && entered.None? && !resizing && !faulted && this.ui == ui
    {
      windows := map[];
      retired := map[];
      entered := None;
      resizing := false;
      faulted := false;
      this.ui := ui;
    }

    function Snapshot(): State
      reads this, ui
    {
      State(windows, retired, entered, resizing, ui.posted, faulted)
    }

    /** `get_window(h)` followed by a send on one of its channels. */
    method Send(h: Handle, e: Event)
      modifies this
      ensures Snapshot() == Emit(old(Snapshot()), h, e)
    {
      if h in windows {
        windows := windows[h := windows[h].(log := windows[h].log + [e])];
      }
    }

    /** `UiThread::post` of a closure, or `PostQuitMessage`. */
    method Post(p: Posted)
      modifies ui
      ensures Snapshot() == old(Snapshot()).(posted := old(Snapshot()).posted + [p])
    {
      ui.posted := ui.posted + [p];
    }
  }
}
