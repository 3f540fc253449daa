/**
 * The event plumbing of src/event.rs: the payloads a window sends, the
 * bounded broadcast channel each kind of event goes through (overflow on,
 * so a full buffer drops its oldest value), the receiver that the
 * application polls, and the close-request handshake.
 *
 * A channel is seen through one receiver: the buffer holds what that
 * receiver has yet to take. Every receiver of a broadcast channel sees the
 * same thing from the point it was activated, so one suffices to state
 * what the channel promises.
 */
module Events {
  import opened Common
  import opened Win32
  import Device
  import VirtualKeys
  import Geometry

  // ---------------------------------------------------------------------
  // Payloads
  // ---------------------------------------------------------------------

  /** `MouseState`: the cursor position in client pixels and the buttons
      held down. */
  datatype MouseState = MouseState(position: Geometry.Point, buttons: Device.MouseButtons)

  datatype MouseInput = MouseInput(button: Device.MouseButton, buttonState: Device.ButtonState, mouseState: MouseState)

  datatype MouseWheel = MouseWheel(delta: int, mouseState: MouseState)

  datatype KeyInput = KeyInput(state: Device.ButtonState, keyCode: VirtualKeys.KeyCode, prevState: Device.ButtonState)

  datatype DropFiles = DropFiles(position: Geometry.Point, files: seq<string>)

  // ---------------------------------------------------------------------
  // The bounded buffer
  // ---------------------------------------------------------------------

  /** The last `cap` values of `s` (all of them if there are fewer). */
  function Newest<T>(s: seq<T>, cap: nat): (r: seq<T>)
    ensures |r| == if |s| < cap then |s| else cap
  {
    s[|s| - (if |s| < cap then |s| else cap)..]
  }

  /** One `try_broadcast` with overflow on: append, and if the buffer was
      full drop its oldest value. */
  function Pushed<T>(buf: seq<T>, v: T, cap: nat): (r: seq<T>)
    requires cap > 0
  {
    if |buf| < cap then buf + [v] else buf[1..] + [v]
  }

  /** A push keeps the newest `cap` values; in particular the value just
      sent is always kept. */
  lemma PushedIsNewest<T>(buf: seq<T>, v: T, cap: nat)
    requires 0 < cap && |buf| <= cap
    ensures Pushed(buf, v, cap) == Newest(buf + [v], cap)
    ensures |Pushed(buf, v, cap)| <= cap && Pushed(buf, v, cap)[|Pushed(buf, v, cap)| - 1] == v
  {
    var r := Pushed(buf, v, cap);
    var n := Newest(buf + [v], cap);
    assert |r| == |n|;
    forall i | 0 <= i < |r| ensures r[i] == n[i] {
    }
  }

  /** Sends of several values, one after the other. */
  function SendAll<T>(buf: seq<T>, vs: seq<T>, cap: nat): seq<T>
    requires cap > 0
    decreases |vs|
  {
    if vs == [] then buf else SendAll(Pushed(buf, vs[0], cap), vs[1..], cap)
  }

  /** Cutting to the newest values first and again after appending keeps
      the same values as cutting once. */
  lemma NewestAppend<T>(s: seq<T>, t: seq<T>, cap: nat)
    ensures Newest(Newest(s, cap) + t, cap) == Newest(s + t, cap)
  {
    var a := Newest(Newest(s, cap) + t, cap);
    var b := Newest(s + t, cap);
    assert |a| == |b|;
    forall i | 0 <= i < |a| ensures a[i] == b[i] {
      var k := |s + t| - |b| + i;
      if k >= |s| {
        assert b[i] == t[k - |s|];
      }
    }
  }

  /** However many values are sent, the buffer holds the newest `cap` of
      what it held and what was sent, in the order they were sent. */
  lemma {:induction false} SendAllIsNewest<T>(buf: seq<T>, vs: seq<T>, cap: nat)
    requires 0 < cap && |buf| <= cap
    ensures SendAll(buf, vs, cap) == Newest(buf + vs, cap)
    decreases |vs|
  {
    if vs == [] {
      assert buf + vs == buf;
    } else {
      var p := Pushed(buf, vs[0], cap);
      var w := buf + [vs[0]];
      PushedIsNewest(buf, vs[0], cap);
      assert p == Newest(w, cap);
      SendAllIsNewest(p, vs[1..], cap);
      assert SendAll(buf, vs, cap) == Newest(p + vs[1..], cap);
      NewestAppend(w, vs[1..], cap);
      assert w + vs[1..] == buf + vs;
    }
  }

  /** A receiver that keeps up loses nothing: sending at most `cap` values
      to an empty buffer leaves all of them queued. */
  lemma SendWithinCapacity<T>(vs: seq<T>, cap: nat)
    requires 0 < cap && |vs| <= cap
    ensures SendAll([], vs, cap) == vs
  {
    SendAllIsNewest([], vs, cap);
    assert [] + vs == vs;
  }

  /** The outcome of polling an `async fn` once: finished, or waiting. */
  datatype Poll<+T> = Ready(result: Result<T>) | Pending

  /** `Channel`: a broadcast channel created with overflow on and its
      receiver deactivated. */
  class Channel<T> {
    const capacity: nat
    /** What the receiver has yet to take, oldest first. */
    var buffer: seq<T>
    /** Whether a receiver is active; with none, a send is dropped. */
    var active: bool
    /** Whether the sending side is gone. */
    var closed: bool

    ghost predicate Valid()
      reads this
    {
      0 < capacity && |buffer| <= capacity && (!active ==> buffer == [])
    }

    /** `Channel::new(capacity)`; a zero capacity panics in the channel
        library. */
    constructor (capacity: nat)
      requires capacity > 0
      ensures Valid()
      ensures this.capacity == capacity && buffer == [] && !active && !closed
    {
      this.capacity := capacity;
      buffer := [];
      active := false;
      closed := false;
    }

    /** Activating the receiver: it sees the values sent from now on. */
    method Activate()
      requires Valid()
      modifies this
      ensures Valid() && active && buffer == old(buffer) && closed == old(closed)
    {
      active := true;
    }

    /** `Channel::send`: never fails; with no active receiver or a closed
        channel the value is dropped, otherwise it is pushed. */
    method Send(v: T)
      requires Valid()
      modifies this
      ensures Valid() && active == old(active) && closed == old(closed)
      ensures buffer == if active && !closed then Pushed(old(buffer), v, capacity) else old(buffer)
    {
      if active && !closed {
        buffer := Pushed(buffer, v, capacity);
      }
    }

    /** Dropping the sender closes the channel; queued values stay. */
    method Close()
      requires Valid()
      modifies this
      ensures Valid() && closed && buffer == old(buffer) && active == old(active)
    {
      closed := true;
    }
  }

  /** `Receiver`: a receiver, or none when the window was gone when it was
      asked for. */
  class Receiver<T> {
    const inner: Option<Channel<T>>

    constructor (inner: Option<Channel<T>>)
      ensures this.inner == inner
    {
      this.inner := inner;
    }

    /** `try_recv`: the oldest queued value, `Ok(None)` when nothing is
        queued yet, `Err(Closed)` when nothing is queued and the channel is
        closed, or when there is no channel at all. */
    method TryRecv() returns (r: Result<Option<T>>)
      requires inner.Some? ==> inner.value.Valid()
      modifies if inner.Some? then {inner.value} else {}
      ensures inner.None? ==> r == Err(Closed)
      ensures inner.Some? ==> inner.value.Valid()
      ensures inner.Some? && old(inner.value.buffer) != [] ==>
        r == Ok(Some(old(inner.value.buffer)[0])) && inner.value.buffer == old(inner.value.buffer)[1..]
      ensures inner.Some? && old(inner.value.buffer) == [] ==>
        r == (if inner.value.closed then Err(Closed) else Ok(None)) && inner.value.buffer == []
      ensures inner.Some? ==> inner.value.active == old(inner.value.active) && inner.value.closed == old(inner.value.closed)
    {
      if inner.None? {
        return Err(Closed);
      }
      var c := inner.value;
      if c.buffer != [] {
        r := Ok(Some(c.buffer[0]));
        c.buffer := c.buffer[1..];
      } else if c.closed {
        r := Err(Closed);
      } else {
        r := Ok(None);
      }
    }

    /** `recv`: like `try_recv`, except that with nothing queued on an open
        channel it waits; every error becomes `Closed`. */
    method Recv() returns (r: Poll<T>)
      requires inner.Some? ==> inner.value.Valid()
      modifies if inner.Some? then {inner.value} else {}
      ensures inner.None? ==> r == Ready(Err(Closed))
      ensures inner.Some? ==> inner.value.Valid()
      ensures inner.Some? && old(inner.value.buffer) != [] ==>
        r == Ready(Ok(old(inner.value.buffer)[0])) && inner.value.buffer == old(inner.value.buffer)[1..]
      ensures inner.Some? && old(inner.value.buffer) == [] ==>
        r == (if inner.value.closed then Ready(Err(Closed)) else Pending) && inner.value.buffer == []
      ensures inner.Some? ==> inner.value.active == old(inner.value.active) && inner.value.closed == old(inner.value.closed)
    {
      var t := TryRecv();
      match t
      case Ok(Some(v)) => r := Ready(Ok(v));
      case Ok(None) => r := Pending;
      case Err(e) => r := Ready(Err(Closed));
    }
  }

  // ---------------------------------------------------------------------
  // Close requests
  // ---------------------------------------------------------------------

  /** `CloseRequest`: the token a close-request subscriber receives. */
  datatype CloseRequest = CloseRequest(hwnd: Handle)

  /** The work posted to the UI thread, in order. */
  class UiQueue {
    var posted: seq<Posted>

    constructor ()
      ensures posted == []
    {
      posted := [];
    }
  }

  /** `CloseRequest::close`: consumes the token and posts exactly one
      destruction of its own window. */
  method Close(req: CloseRequest, q: UiQueue)
    modifies q
    ensures q.posted == old(q.posted) + [DestroyWindow(req.hwnd)]
  {
    q.posted := q.posted + [DestroyWindow(req.hwnd)];
  }

  /** How a send on the close-request channel ends: delivered, refused
      because the receiver is gone, or still waiting for room. */
  datatype SendPoll = Sent | Refused | Waiting

  /** The one-slot channel between a window and its close-request
      subscriber; `CloseRequestReceiver` is its receiving end. */
  class CloseRequestChannel {
    var queue: seq<CloseRequest>
    var senderAlive: bool
    var receiverAlive: bool

    ghost predicate Valid()
      reads this
    {
      |queue| <= 1
    }

    constructor ()
      ensures Valid() && queue == [] && senderAlive && receiverAlive
    {
      queue := [];
      senderAlive := true;
      receiverAlive := true;
    }

    /** The sender's `send(..).await`: refused once the receiver is gone,
        waiting while the slot is taken. */
    method Send(req: CloseRequest) returns (r: SendPoll)
      requires Valid()
      modifies this
      ensures Valid() && senderAlive == old(senderAlive) && receiverAlive == old(receiverAlive)
      ensures !receiverAlive ==> r == Refused && queue == old(queue)
      ensures receiverAlive && old(queue) == [] ==> r == Sent && queue == [req]
      ensures receiverAlive && old(queue) != [] ==> r == Waiting && queue == old(queue)
    {
      if !receiverAlive {
        r := Refused;
      } else if queue == [] {
        queue := [req];
        r := Sent;
      } else {
        r := Waiting;
      }
    }

    /** `CloseRequestReceiver::recv`: the queued request, `Closed` once the
        sender is gone and nothing is queued, otherwise waiting. */
    method Recv() returns (r: Poll<CloseRequest>)
      requires Valid()
      modifies this
      ensures Valid() && senderAlive == old(senderAlive) && receiverAlive == old(receiverAlive)
      ensures old(queue) != [] ==> r == Ready(Ok(old(queue)[0])) && queue == []
      ensures old(queue) == [] ==> queue == [] && r == (if senderAlive then Pending else Ready(Err(Closed)))
    {
      if queue != [] {
        r := Ready(Ok(queue[0]));
        queue := [];
      } else if !senderAlive {
        r := Ready(Err(Closed));
      } else {
        r := Pending;
      }
    }

    /** The window's end is dropped (the window was destroyed). */
    method DropSender()
      requires Valid()
      modifies this
      ensures Valid() && !senderAlive && queue == old(queue) && receiverAlive == old(receiverAlive)
    {
      senderAlive := false;
    }

    /** The application drops its `CloseRequestReceiver`. */
    method DropReceiver()
      requires Valid()
      modifies this
      ensures Valid() && !receiverAlive && queue == old(queue) && senderAlive == old(senderAlive)
    {
      receiverAlive := false;
    }
  }
}
