/**
 * The window procedure as it runs on the UI thread's `Context`: each
 * handler updates the context's slots and sends on the window's channels
 * in place, and is proved to do what the corresponding function of module
 * Procedure says.
 */
module WindowProc {
  import opened Common
  import opened Win32
  import Ime
  import Device
  import Events
  import opened Registry
  import opened Procedure

  /** `wm_mouse_move`. */
  method MouseMoveProc(ctx: Context, h: Handle, wp: WParam, lp: LParam) returns (ret: LResult)
    modifies ctx
    ensures Handled(ctx.Snapshot(), ret) == WmMouseMove(old(ctx.Snapshot()), h, wp, lp)
  {
    if h !in ctx.windows {
      return DefaultProc(WM_MOUSEMOVE, wp, lp);
    }
    var state := MouseStateOf(wp, lp);
    if ctx.entered.None? {
      ctx.entered := Some(h);
      ctx.Send(h, CursorEntered(state));
    } else {
      ctx.Send(h, CursorMoved(state));
    }
    return Value(0);
  }

  /** `wm_mouse_leave`. */
  method MouseLeaveProc(ctx: Context, h: Handle, wp: WParam, lp: LParam, host: Host) returns (ret: LResult)
    modifies ctx
    ensures Handled(ctx.Snapshot(), ret) == WmMouseLeave(old(ctx.Snapshot()), h, wp, lp, host)
  {
    if h !in ctx.windows {
      return DefaultProc(WM_MOUSELEAVE, wp, lp);
    }
    ctx.entered := None;
    ctx.Send(h, CursorLeaved(Events.MouseState(host.cursorPosition, GetMouseButtons(wp))));
    return Value(0);
  }

  /** `WM_XBUTTONDOWN` / `WM_XBUTTONUP`: `xbutton_to_ex`, then
      `mouse_input`. */
  method XButtonProc(ctx: Context, h: Handle, msg: nat, wp: WParam, lp: LParam) returns (ret: LResult)
    requires msg == WM_XBUTTONDOWN || msg == WM_XBUTTONUP
    modifies ctx
    ensures Handled(ctx.Snapshot(), ret) == WmXButton(old(ctx.Snapshot()), h, msg, wp, lp)
  {
    var button := XButtonToEx(wp);
    if button.None? {
      ctx.faulted := true;
      return Value(0);
    }
    var state := if msg == WM_XBUTTONDOWN then Device.Pressed else Device.Released;
    var r := MouseInputReaction(WindowOf(ctx.Snapshot(), h), button.value, state, wp, lp);
    if r.event.Some? {
      ctx.Send(h, r.event.value);
    }
    return r.ret;
  }

  /** `wm_enter_size_move`. */
  method EnterSizeMoveProc(ctx: Context, wp: WParam, lp: LParam) returns (ret: LResult)
    modifies ctx
    ensures Handled(ctx.Snapshot(), ret) == WmEnterSizeMove(old(ctx.Snapshot()), wp, lp)
  {
    ctx.resizing := true;
    return DefaultProc(WM_ENTERSIZEMOVE, wp, lp);
  }

  /** `wm_exit_size_move`. */
  method ExitSizeMoveProc(ctx: Context, h: Handle, wp: WParam, lp: LParam, host: Host) returns (ret: LResult)
    modifies ctx
    ensures Handled(ctx.Snapshot(), ret) == WmExitSizeMove(old(ctx.Snapshot()), h, wp, lp, host)
  {
    ctx.resizing := false;
    ctx.Send(h, Sized(host.clientSize));
    return DefaultProc(WM_EXITSIZEMOVE, wp, lp);
  }

  /** One `if let` block of `wm_ime_composition`. */
  method SendCompositionProc(ctx: Context, h: Handle, text: Option<string>, attrReply: Ime.Reply,
                             candidates: Option<Ime.CandidateList>) returns (panicked: bool)
    requires Ime.WellFormedReply(attrReply)
    modifies ctx
    ensures Part(ctx.Snapshot(), panicked) == SendComposition(old(ctx.Snapshot()), h, text, attrReply, candidates)
  {
    if text.None? {
      return false;
    }
    var attr := Ime.GetCompositionString(GCS_COMPATTR, attrReply);
    match attr
    case Something(v) =>
      if v.CompAttr? {
        ctx.Send(h, ImeComposition(Ime.NewComposition(text.value, v.attrs), candidates));
      }
      return false;
    case Nothing =>
      return false;
    case Panics =>
      return true;
  }

  /** `wm_ime_composition`: the result string, then the composition
      string, each sent with its attributes. */
  method ImeCompositionProc(ctx: Context, h: Handle, wp: WParam, lp: LParam, host: Host) returns (ret: LResult)
    requires HostValid(host)
    modifies ctx
    ensures Handled(ctx.Snapshot(), ret) == WmImeComposition(old(ctx.Snapshot()), h, wp, lp, host)
  {
    if h !in ctx.windows {
      return DefaultProc(WM_IME_COMPOSITION, wp, lp);
    }
    var visible := ctx.windows[h].imeCompositionWindowVisibility;
    var flags := ToU32(lp) as bv32;
    if flags & GCS_RESULTSTR == GCS_RESULTSTR {
      var result := ResultText(Ime.GetCompositionString(GCS_RESULTSTR, host.resultStr));
      var panicked := SendCompositionProc(ctx, h, result, host.compAttr, None);
      if panicked {
        ctx.faulted := true;
        return Value(0);
      }
    }
    if flags & GCS_COMPSTR == GCS_COMPSTR {
      var text := CompText(Ime.GetCompositionString(GCS_COMPSTR, host.compStr));
      var panicked := SendCompositionProc(ctx, h, text, host.compAttr, host.candidates);
      if panicked {
        ctx.faulted := true;
        return Value(0);
      }
    }
    ret := if visible then DefaultProc(WM_IME_COMPOSITION, wp, lp) else Value(0);
  }

  /** `wm_close`. */
  method CloseProc(ctx: Context, h: Handle, host: Host) returns (ret: LResult)
    modifies ctx, ctx.ui
    ensures Handled(ctx.Snapshot(), ret) == WmClose(old(ctx.Snapshot()), h, host)
  {
    if h !in ctx.windows {
      return DefaultProc(WM_CLOSE, 0, 0);
    }
    if ctx.windows[h].closeRequest && host.closeSent {
      ctx.Send(h, CloseRequested(Events.CloseRequest(h)));
    } else {
      ctx.Post(DestroyWindow(h));
    }
    return Value(0);
  }

  /** `wm_destroy`. */
  method DestroyProc(ctx: Context, h: Handle) returns (ret: LResult)
    modifies ctx, ctx.ui
    ensures Handled(ctx.Snapshot(), ret) == WmDestroy(old(ctx.Snapshot()), h)
  {
    ctx.Send(h, Event.Closed);
    if h in ctx.windows {
      ctx.retired := ctx.retired[h := ctx.windows[h].log];
      ctx.windows := ctx.windows - {h};
    }
    if ctx.windows == map[] {
      ctx.Post(QuitMessage);
    }
    return Value(0);
  }

  /** `window_proc`: dispatch on the message; a panic in a handler is
      caught and recorded. */
  method Dispatch(ctx: Context, h: Handle, msg: nat, wp: WParam, lp: LParam, host: Host) returns (ret: LResult)
    requires HostValid(host)
    modifies ctx, ctx.ui
    ensures Handled(ctx.Snapshot(), ret) == Step(old(ctx.Snapshot()), h, msg, wp, lp, host)
  {
    if msg == WM_MOUSEMOVE {
      ret := MouseMoveProc(ctx, h, wp, lp);
    } else if msg == WM_MOUSELEAVE {
      ret := MouseLeaveProc(ctx, h, wp, lp, host);
    } else if msg == WM_XBUTTONDOWN || msg == WM_XBUTTONUP {
      ret := XButtonProc(ctx, h, msg, wp, lp);
    } else if msg == WM_IME_COMPOSITION {
      ret := ImeCompositionProc(ctx, h, wp, lp, host);
    } else if msg == WM_ENTERSIZEMOVE {
      ret := EnterSizeMoveProc(ctx, wp, lp);
    } else if msg == WM_EXITSIZEMOVE {
      ret := ExitSizeMoveProc(ctx, h, wp, lp, host);
    } else if msg == WM_CLOSE {
      ret := CloseProc(ctx, h, host);
    } else if msg == WM_DESTROY {
      ret := DestroyProc(ctx, h);
    } else {
      var r := React(WindowOf(ctx.Snapshot(), h), msg, wp, lp, host);
      if r.event.Some? {
        ctx.Send(h, r.event.value);
      }
      ret := r.ret;
    }
  }
}
