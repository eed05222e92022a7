/** The SDL input class (src/Tools/Input.cpp): fixed arrays of 322 key
    states and 5 mouse-button states, each with the previous frame's
    snapshot, a mouse position and a relative mouse delta.
    `process_events` drains an event queue, which here is a parameter. */
module SdlInput {
  import opened Results

  const KEY_COUNT: nat := 322
  const BUTTON_COUNT: nat := 5

  datatype Point = Point(x: int, y: int)

  /** The SDL events `process_events` distinguishes; `Other` is any event
      it ignores. `sym` is an SDL keycode, `button` an SDL button number
      (1 is the left button). */
  datatype Event =
    | KeyDown(sym: int)
    | KeyUp(sym: int)
    | ButtonDown(button: nat)
    | ButtonUp(button: nat)
    | Motion(x: int, y: int, xrel: int, yrel: int)
    | WindowEvent(windowEventId: nat)
    | Other

  /** Keycodes are non-negative and SDL numbers buttons from 1: the code
      indexes its arrays with `sym` and `button - 1` unchecked below. */
  predicate InContract(e: Event) {
    && (e.KeyDown? || e.KeyUp? ==> e.sym >= 0)
    && (e.ButtonDown? || e.ButtonUp? ==> e.button >= 1)
  }

  datatype Input = Input(
    keys: seq<bool>,
    prevKeys: seq<bool>,
    buttons: seq<bool>,
    prevButtons: seq<bool>,
    position: Point,
    delta: Point,
    hasWindowCallback: bool)

  ghost predicate Valid(i: Input) {
    |i.keys| == KEY_COUNT && |i.prevKeys| == KEY_COUNT &&
    |i.buttons| == BUTTON_COUNT && |i.prevButtons| == BUTTON_COUNT
  }

  /** The constructor: every key and button up in both snapshots, the
      mouse position and delta at the origin (the member initialisers of
      the class declaration), and no window callback. */
  function NewInput(): (r: Input)
    ensures Valid(r)
    ensures forall k :: 0 <= k < KEY_COUNT ==> !r.keys[k] && !r.prevKeys[k]
    ensures forall b :: 0 <= b < BUTTON_COUNT ==> !r.buttons[b] && !r.prevButtons[b]
    ensures r.position == Point(0, 0) && r.delta == Point(0, 0) && !r.hasWindowCallback
  {
    Input(seq(KEY_COUNT, _ => false), seq(KEY_COUNT, _ => false),
          seq(BUTTON_COUNT, _ => false), seq(BUTTON_COUNT, _ => false),
          Point(0, 0), Point(0, 0), false)
  }

  /** `set_window_event_callback`: the callback replaces the old one, and
      events are forwarded afterwards iff the new `std::function` is
      non-empty (an empty one, such as `nullptr`, switches forwarding off). */
  function SetWindowCallback(i: Input, nonEmpty: bool): (r: Input)
    ensures r.hasWindowCallback == nonEmpty
    ensures r.keys == i.keys && r.prevKeys == i.prevKeys && r.buttons == i.buttons
    ensures r.prevButtons == i.prevButtons && r.position == i.position && r.delta == i.delta
  {
    i.(hasWindowCallback := nonEmpty)
  }

  // ---- The meaning of a drained queue ----

  /** The last event in `events` that sets or clears key `k`: Some(true)
      for a key-down, Some(false) for a key-up. */
  function LastKeyEvent(events: seq<Event>, k: nat): Option<bool>
    decreases |events|
  {
    if |events| == 0 then None
    else
      var e := events[|events| - 1];
      if (e.KeyDown? || e.KeyUp?) && e.sym == k then Some(e.KeyDown?)
      else LastKeyEvent(events[..|events| - 1], k)
  }

  /** The last event in `events` that presses or releases SDL button `b`. */
  function LastButtonEvent(events: seq<Event>, b: nat): Option<bool>
    decreases |events|
  {
    if |events| == 0 then None
    else
      var e := events[|events| - 1];
      if (e.ButtonDown? || e.ButtonUp?) && e.button == b then Some(e.ButtonDown?)
      else LastButtonEvent(events[..|events| - 1], b)
  }

  /** The last motion event in `events`. */
  function LastMotion(events: seq<Event>): (r: Option<Event>)
    ensures r.Some? ==> r.value.Motion?
    decreases |events|
  {
    if |events| == 0 then None
    else if events[|events| - 1].Motion? then Some(events[|events| - 1])
    else LastMotion(events[..|events| - 1])
  }

  function WindowEvents(events: seq<Event>): (r: seq<Event>)
    ensures forall e :: e in r ==> e.WindowEvent? && e in events
    decreases |events|
  {
    if |events| == 0 then []
    else WindowEvents(events[..|events| - 1]) + (if events[|events| - 1].WindowEvent? then [events[|events| - 1]] else [])
  }

  /** What a drained queue leaves, stated event-free: the previous
      snapshot is the state before draining; a key in range is set by its
      last key event, and keeps its state when it has none; likewise a
      button; position and delta come from the last motion event, the
      delta being zero without one. */
  function Drained(i: Input, events: seq<Event>): (r: Input)
    requires Valid(i)
    ensures Valid(r)
  {
    var last := LastMotion(events);
    Input(
      seq(KEY_COUNT, k requires 0 <= k < KEY_COUNT => LastKeyEvent(events, k).GetOr(i.keys[k])),
      i.keys,
      seq(BUTTON_COUNT, b requires 0 <= b < BUTTON_COUNT => LastButtonEvent(events, b + 1).GetOr(i.buttons[b])),
      i.buttons,
      if last.Some? then Point(last.value.x, last.value.y) else i.position,
      if last.Some? then Point(last.value.xrel, last.value.yrel) else Point(0, 0),
      i.hasWindowCallback)
  }

  /** One event of the loop in `process_events`. */
  function Handle(i: Input, e: Event): (r: Input)
    requires Valid(i) && InContract(e)
    ensures Valid(r)
  {
    match e
    case KeyDown(s) => if s < KEY_COUNT then i.(keys := i.keys[s := true]) else i
    case KeyUp(s) => if s < KEY_COUNT then i.(keys := i.keys[s := false]) else i
    case ButtonDown(b) => if b <= BUTTON_COUNT then i.(buttons := i.buttons[b - 1 := true]) else i
    case ButtonUp(b) => if b <= BUTTON_COUNT then i.(buttons := i.buttons[b - 1 := false]) else i
    case Motion(x, y, xrel, yrel) => i.(position := Point(x, y), delta := Point(xrel, yrel))
    case WindowEvent(_) => i
    case Other => i
  }

  /** `process_events`: snapshot the keys and buttons, zero the delta, then
      handle the queued events in order. Window events are handed to the
      window callback, when one is set, in queue order. */
  method ProcessEvents(i: Input, events: seq<Event>) returns (r: Input, forwarded: seq<Event>)
    requires Valid(i)
    requires forall j :: 0 <= j < |events| ==> InContract(events[j])
    ensures r == Drained(i, events)
    ensures forwarded == if i.hasWindowCallback then WindowEvents(events) else []
  {
    r := i.(prevKeys := i.keys, prevButtons := i.buttons, delta := Point(0, 0));
    forwarded := [];
    var n := 0;
    while n < |events|
      invariant 0 <= n <= |events|
      invariant Valid(r)
      invariant r == Drained(i, events[..n]).(delta := r.delta)
      invariant r.delta == (if LastMotion(events[..n]).Some? then Point(LastMotion(events[..n]).value.xrel, LastMotion(events[..n]).value.yrel) else Point(0, 0))
      invariant forwarded == if i.hasWindowCallback then WindowEvents(events[..n]) else []
    {
      var e := events[n];
      DrainedStep(i, events[..n], e);
      assert events[..n + 1] == events[..n] + [e];
      if e.WindowEvent? && r.hasWindowCallback {
        forwarded := forwarded + [e];
      }
      r := Handle(r, e);
      n := n + 1;
    }
    assert events[..n] == events;
  }

  /** Handling one more event moves the drained state forward by it. */
  lemma DrainedStep(i: Input, events: seq<Event>, e: Event)
    requires Valid(i) && InContract(e)
    ensures Drained(i, events + [e]) == Handle(Drained(i, events), e).(delta := Drained(i, events + [e]).delta)
    ensures Drained(i, events + [e]).delta ==
      (if e.Motion? then Point(e.xrel, e.yrel) else Drained(i, events).delta)
    ensures WindowEvents(events + [e]) == WindowEvents(events) + (if e.WindowEvent? then [e] else [])
  {
    var es := events + [e];
    assert es[..|es| - 1] == events;
    DrainedStepKeys(i, events, e);
    DrainedStepButtons(i, events, e);
  }

  lemma DrainedStepKeys(i: Input, events: seq<Event>, e: Event)
    requires Valid(i) && InContract(e)
    ensures Drained(i, events + [e]).keys == Handle(Drained(i, events), e).keys
  {
    var es := events + [e];
    assert es[..|es| - 1] == events;
    var d, d' := Drained(i, events), Drained(i, es);
    var h := Handle(d, e);
    forall k | 0 <= k < KEY_COUNT ensures d'.keys[k] == h.keys[k] {
      if (e.KeyDown? || e.KeyUp?) && e.sym == k {
        assert LastKeyEvent(es, k) == Some(e.KeyDown?);
      } else {
        assert LastKeyEvent(es, k) == LastKeyEvent(events, k);
      }
    }
  }

  lemma DrainedStepButtons(i: Input, events: seq<Event>, e: Event)
    requires Valid(i) && InContract(e)
    ensures Drained(i, events + [e]).buttons == Handle(Drained(i, events), e).buttons
  {
    var es := events + [e];
    assert es[..|es| - 1] == events;
    var d, d' := Drained(i, events), Drained(i, es);
    var h := Handle(d, e);
    forall b | 0 <= b < BUTTON_COUNT ensures d'.buttons[b] == h.buttons[b] {
      if (e.ButtonDown? || e.ButtonUp?) && e.button == b + 1 {
        assert LastButtonEvent(es, b + 1) == Some(e.ButtonDown?);
      } else {
        assert LastButtonEvent(es, b + 1) == LastButtonEvent(events, b + 1);
      }
    }
  }

  // ---- Queries ----

  /** `is_key_down`: a level test. */
  function IsKeyDown(i: Input, key: int): (b: bool)
    requires Valid(i) && key >= 0
    ensures b <==> key < KEY_COUNT && i.keys[key]
  {
    key < KEY_COUNT && i.keys[key]
  }

  /** `is_key_up`: a release edge. */
  function IsKeyUp(i: Input, key: int): (b: bool)
    requires Valid(i) && key >= 0
    ensures b ==> key < KEY_COUNT && !IsKeyDown(i, key)
    ensures key < KEY_COUNT ==> (b <==> !i.keys[key] && i.prevKeys[key])
  {
    key < KEY_COUNT && !i.keys[key] && i.prevKeys[key]
  }

  /** `is_key_held`: down in both snapshots. */
  function IsKeyHeld(i: Input, key: int): (b: bool)
    requires Valid(i) && key >= 0
    ensures b ==> IsKeyDown(i, key)
    ensures key < KEY_COUNT ==> (b <==> i.keys[key] && i.prevKeys[key])
  {
    key < KEY_COUNT && i.keys[key] && i.prevKeys[key]
  }

  /** `is_mouse_button_down`: unlike `is_key_down`, a press edge. */
  function IsButtonDown(i: Input, button: nat): (b: bool)
    requires Valid(i) && button >= 1
    ensures button <= BUTTON_COUNT ==> (b <==> i.buttons[button - 1] && !i.prevButtons[button - 1])
    ensures button > BUTTON_COUNT ==> !b
  {
    button <= BUTTON_COUNT && i.buttons[button - 1] && !i.prevButtons[button - 1]
  }

  function IsButtonUp(i: Input, button: nat): (b: bool)
    requires Valid(i) && button >= 1
    ensures button <= BUTTON_COUNT ==> (b <==> !i.buttons[button - 1] && i.prevButtons[button - 1])
    ensures button > BUTTON_COUNT ==> !b
  {
    button <= BUTTON_COUNT && !i.buttons[button - 1] && i.prevButtons[button - 1]
  }

  function IsButtonHeld(i: Input, button: nat): (b: bool)
    requires Valid(i) && button >= 1
    ensures button <= BUTTON_COUNT ==> (b <==> i.buttons[button - 1] && i.prevButtons[button - 1])
    ensures button > BUTTON_COUNT ==> !b
  {
    button <= BUTTON_COUNT && i.buttons[button - 1] && i.prevButtons[button - 1]
  }

  // ---- Properties of a frame ----

  /** Over a frame, a key in range reads as down iff its last event in the
      frame is a key-down, or it has none and was down before; as released
      iff it was down before the frame and its last event in the frame is
      a key-up; and as held iff it was down before and its last event, if
      any, is a key-down. Keys out of range are never reported. */
  lemma KeyEdgesOverFrame(i: Input, events: seq<Event>, key: nat)
    requires Valid(i)
    ensures var r := Drained(i, events);
      && (key < KEY_COUNT ==>
            && (IsKeyDown(r, key) <==> LastKeyEvent(events, key).GetOr(i.keys[key]))
            && (IsKeyUp(r, key) <==> i.keys[key] && LastKeyEvent(events, key) == Some(false))
            && (IsKeyHeld(r, key) <==> i.keys[key] && LastKeyEvent(events, key) != Some(false)))
      && (key >= KEY_COUNT ==> !IsKeyDown(r, key) && !IsKeyUp(r, key) && !IsKeyHeld(r, key))
  {
  }

  /** Over a frame, SDL button `b` (1 to 5) reads as pressed iff it was up
      before the frame and its last event in the frame is a press; as
      released iff it was down before and its last event is a release; and
      as held iff it was down before and its last event, if any, is a
      press. At most one of the three holds, and buttons past 5 are never
      reported. */
  lemma ButtonEdgesOverFrame(i: Input, events: seq<Event>, b: nat)
    requires Valid(i) && b >= 1
    ensures var r := Drained(i, events);
      && (b <= BUTTON_COUNT ==>
            && (IsButtonDown(r, b) <==> !i.buttons[b - 1] && LastButtonEvent(events, b) == Some(true))
            && (IsButtonUp(r, b) <==> i.buttons[b - 1] && LastButtonEvent(events, b) == Some(false))
            && (IsButtonHeld(r, b) <==> i.buttons[b - 1] && LastButtonEvent(events, b) != Some(false)))
      && !(IsButtonDown(r, b) && IsButtonUp(r, b))
      && !(IsButtonDown(r, b) && IsButtonHeld(r, b))
      && !(IsButtonUp(r, b) && IsButtonHeld(r, b))
      && (b > BUTTON_COUNT ==> !IsButtonDown(r, b) && !IsButtonUp(r, b) && !IsButtonHeld(r, b))
  {
  }

  /** A key-down for a keycode past the array is ignored. */
  lemma {:induction false} OutOfRangeKeysIgnored(events: seq<Event>, k: nat)
    requires forall j :: 0 <= j < |events| ==> (events[j].KeyDown? || events[j].KeyUp?) ==> events[j].sym >= KEY_COUNT
    ensures k < KEY_COUNT ==> LastKeyEvent(events, k) == None
    decreases |events|
  {
    if |events| > 0 {
      assert forall j :: 0 <= j < |events| - 1 ==> events[..|events| - 1][j] == events[j];
      OutOfRangeKeysIgnored(events[..|events| - 1], k);
    }
  }

  /** A frame with no events clears every edge and keeps every level. */
  lemma QuietFrame(i: Input)
    requires Valid(i)
    ensures var r := Drained(i, []);
      && (forall k :: 0 <= k < KEY_COUNT ==> IsKeyDown(r, k) == IsKeyDown(i, k) && !IsKeyUp(r, k))
      && (forall b :: 1 <= b <= BUTTON_COUNT ==> !IsButtonDown(r, b) && !IsButtonUp(r, b))
      && r.delta == Point(0, 0) && r.position == i.position
  {
  }

  /** Button b is stored in slot b - 1: pressing button 1 in a frame where
      it was up reads as a press of button 1 and of no other button. */
  lemma ButtonSlots(i: Input, b: nat)
    requires Valid(i) && 1 <= b <= BUTTON_COUNT && !i.buttons[b - 1]
    ensures var r := Drained(i, [ButtonDown(b)]);
      && IsButtonDown(r, b)
      && forall c :: 1 <= c <= BUTTON_COUNT && c != b ==> !IsButtonDown(r, c) && r.buttons[c - 1] == i.buttons[c - 1]
  {
    var es := [ButtonDown(b)];
    assert es[..0] == [];
    var r := Drained(i, es);
    forall c | 1 <= c <= BUTTON_COUNT && c != b
      ensures !IsButtonDown(r, c) && r.buttons[c - 1] == i.buttons[c - 1]
    {
      assert LastButtonEvent(es, c) == None;
    }
  }

  /** A motion event replaces, rather than adds to, the delta. */
  lemma MotionOverwrites(i: Input, x1: int, y1: int, dx1: int, dy1: int, x2: int, y2: int, dx2: int, dy2: int)
    requires Valid(i)
    ensures var r := Drained(i, [Motion(x1, y1, dx1, dy1), Motion(x2, y2, dx2, dy2)]);
      r.position == Point(x2, y2) && r.delta == Point(dx2, dy2)
  {
  }
}
