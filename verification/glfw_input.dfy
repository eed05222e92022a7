/** The GLFW input singleton (include/Input.hpp, src/Engine/Input.cpp):
    per-frame key and mouse-button snapshots kept in maps, a cursor
    position, a scroll delta, and listener lists. Each GLFW callback is a
    function from the state and the event to the new state and the
    notifications it sends; a listener is an identity, and a notification
    records which listener was called with which arguments. */
module GlfwInput {
  import opened Results

  /** `GLFW_RELEASE`; GLFW_PRESS is 1 and GLFW_REPEAT is 2. */
  const RELEASE: int := 0
  const PRESS: int := 1
  const REPEAT: int := 2

  type ListenerId = nat

  datatype Vec2 = Vec2(x: real, y: real)

  datatype Input = Input(
    currentKeys: map<int, bool>,
    previousKeys: map<int, bool>,
    currentButtons: map<int, bool>,
    previousButtons: map<int, bool>,
    cursor: Vec2,
    previousCursor: Vec2,
    scroll: real,
    keyListeners: seq<ListenerId>,
    mouseListeners: seq<ListenerId>,
    scrollListeners: seq<ListenerId>)

  /** A listener called with (key, action), (x, y) or (x offset, y offset). */
  datatype Notice =
    | KeyNotice(keyListener: ListenerId, key: int, action: int)
    | MouseNotice(mouseListener: ListenerId, x: real, y: real)
    | ScrollNotice(scrollListener: ListenerId, xOffset: real, yOffset: real)

  datatype Step = Step(input: Input, notices: seq<Notice>)

  /** The singleton before any event: static storage, so every map is
      empty and the vectors and scroll delta are zero. */
  function Initial(): (r: Input)
    ensures forall k :: !KeyDown(r, k) && !ButtonDown(r, k)
    ensures r.cursor == Vec2(0.0, 0.0) && r.scroll == 0.0
    ensures r.keyListeners == [] && r.mouseListeners == [] && r.scrollListeners == []
  {
    Input(map[], map[], map[], map[], Vec2(0.0, 0.0), Vec2(0.0, 0.0), 0.0, [], [], [])
  }

  /** `operator[]` on a map of bools: a key never written reads false. */
  function Lookup(m: map<int, bool>, k: int): (b: bool)
    ensures b ==> k in m
    ensures k in m ==> b == m[k]
  {
    k in m && m[k]
  }

  // ---- Queries ----

  predicate KeyDown(i: Input, key: int) {
    Lookup(i.currentKeys, key)
  }

  predicate KeyPressed(i: Input, key: int) {
    Lookup(i.currentKeys, key) && !Lookup(i.previousKeys, key)
  }

  predicate KeyReleased(i: Input, key: int) {
    !Lookup(i.currentKeys, key) && Lookup(i.previousKeys, key)
  }

  predicate ButtonDown(i: Input, button: int) {
    Lookup(i.currentButtons, button)
  }

  predicate ButtonPressed(i: Input, button: int) {
    Lookup(i.currentButtons, button) && !Lookup(i.previousButtons, button)
  }

  predicate ButtonReleased(i: Input, button: int) {
    !Lookup(i.currentButtons, button) && Lookup(i.previousButtons, button)
  }

  function CursorDelta(i: Input): Vec2 {
    Vec2(i.cursor.x - i.previousCursor.x, i.cursor.y - i.previousCursor.y)
  }

  /** Pressed and released are edges of opposite direction: never both,
      and each says how the level changed between the snapshots. */
  lemma EdgesExclusive(i: Input, k: int)
    ensures !(KeyPressed(i, k) && KeyReleased(i, k))
    ensures !(ButtonPressed(i, k) && ButtonReleased(i, k))
    ensures KeyPressed(i, k) <==> KeyDown(i, k) && !Lookup(i.previousKeys, k)
    ensures KeyReleased(i, k) <==> !KeyDown(i, k) && Lookup(i.previousKeys, k)
  {
  }

  // ---- Per-frame update ----

  /** `update`: the current state becomes the previous one and the scroll
      delta is cleared. */
  function Update(i: Input): (r: Input)
    ensures forall k :: KeyDown(r, k) == KeyDown(i, k) && !KeyPressed(r, k) && !KeyReleased(r, k)
    ensures forall b :: ButtonDown(r, b) == ButtonDown(i, b) && !ButtonPressed(r, b) && !ButtonReleased(r, b)
    ensures r.cursor == i.cursor && CursorDelta(r) == Vec2(0.0, 0.0)
    ensures r.scroll == 0.0
    ensures r.keyListeners == i.keyListeners && r.mouseListeners == i.mouseListeners
    ensures r.scrollListeners == i.scrollListeners
  {
    i.(previousKeys := i.currentKeys, previousButtons := i.currentButtons,
       previousCursor := i.cursor, scroll := 0.0)
  }

  // ---- Callbacks ----

  function KeyNotices(listeners: seq<ListenerId>, key: int, action: int): (ns: seq<Notice>)
    ensures |ns| == |listeners|
    ensures forall j :: 0 <= j < |ns| ==> ns[j] == KeyNotice(listeners[j], key, action)
  {
    if |listeners| == 0 then [] else [KeyNotice(listeners[0], key, action)] + KeyNotices(listeners[1..], key, action)
  }

  /** `key_callback`: the key is down for every action but GLFW_RELEASE;
      then each key listener, in registration order, is told (key, action). */
  function OnKey(i: Input, key: int, action: int): (r: Step)
    ensures KeyDown(r.input, key) <==> action != RELEASE
    ensures forall k :: k != key ==> KeyDown(r.input, k) == KeyDown(i, k)
    ensures r.input == i.(currentKeys := r.input.currentKeys)
    ensures |r.notices| == |i.keyListeners|
    ensures forall j :: 0 <= j < |r.notices| ==> r.notices[j] == KeyNotice(i.keyListeners[j], key, action)
  {
    Step(i.(currentKeys := i.currentKeys[key := action != RELEASE]), KeyNotices(i.keyListeners, key, action))
  }

  /** `mouse_button_callback`: as for keys, but no listener is told. */
  function OnMouseButton(i: Input, button: int, action: int): (r: Step)
    ensures ButtonDown(r.input, button) <==> action != RELEASE
    ensures forall b :: b != button ==> ButtonDown(r.input, b) == ButtonDown(i, b)
    ensures r.input == i.(currentButtons := r.input.currentButtons)
    ensures r.notices == []
  {
    Step(i.(currentButtons := i.currentButtons[button := action != RELEASE]), [])
  }

  function MouseNotices(listeners: seq<ListenerId>, x: real, y: real): (ns: seq<Notice>)
    ensures |ns| == |listeners|
    ensures forall j :: 0 <= j < |ns| ==> ns[j] == MouseNotice(listeners[j], x, y)
  {
    if |listeners| == 0 then [] else [MouseNotice(listeners[0], x, y)] + MouseNotices(listeners[1..], x, y)
  }

  /** `cursor_position_callback`: only the current cursor moves; each
      mouse listener is told the new position. */
  function OnCursor(i: Input, x: real, y: real): (r: Step)
    ensures r.input == i.(cursor := Vec2(x, y))
    ensures CursorDelta(r.input) == Vec2(x - i.previousCursor.x, y - i.previousCursor.y)
    ensures |r.notices| == |i.mouseListeners|
    ensures forall j :: 0 <= j < |r.notices| ==> r.notices[j] == MouseNotice(i.mouseListeners[j], x, y)
  {
    Step(i.(cursor := Vec2(x, y)), MouseNotices(i.mouseListeners, x, y))
  }

  function ScrollNotices(listeners: seq<ListenerId>, xOffset: real, yOffset: real): (ns: seq<Notice>)
    ensures |ns| == |listeners|
    ensures forall j :: 0 <= j < |ns| ==> ns[j] == ScrollNotice(listeners[j], xOffset, yOffset)
  {
    if |listeners| == 0 then [] else [ScrollNotice(listeners[0], xOffset, yOffset)] + ScrollNotices(listeners[1..], xOffset, yOffset)
  }

  /** `scroll_callback`: the scroll delta becomes the y offset, replacing
      what was there; each scroll listener is told both offsets. */
  function OnScroll(i: Input, xOffset: real, yOffset: real): (r: Step)
    ensures r.input == i.(scroll := yOffset)
    ensures |r.notices| == |i.scrollListeners|
    ensures forall j :: 0 <= j < |r.notices| ==> r.notices[j] == ScrollNotice(i.scrollListeners[j], xOffset, yOffset)
  {
    Step(i.(scroll := yOffset), ScrollNotices(i.scrollListeners, xOffset, yOffset))
  }

  // ---- Registration ----

  function RegisterKeyListener(i: Input, l: ListenerId): (r: Input)
    ensures |r.keyListeners| == |i.keyListeners| + 1
    ensures r.keyListeners[..|i.keyListeners|] == i.keyListeners && r.keyListeners[|i.keyListeners|] == l
    ensures r == i.(keyListeners := r.keyListeners)
  {
    i.(keyListeners := i.keyListeners + [l])
  }

  function RegisterMouseListener(i: Input, l: ListenerId): (r: Input)
    ensures |r.mouseListeners| == |i.mouseListeners| + 1
    ensures r.mouseListeners[..|i.mouseListeners|] == i.mouseListeners && r.mouseListeners[|i.mouseListeners|] == l
    ensures r == i.(mouseListeners := r.mouseListeners)
  {
    i.(mouseListeners := i.mouseListeners + [l])
  }

  function RegisterScrollListener(i: Input, l: ListenerId): (r: Input)
    ensures |r.scrollListeners| == |i.scrollListeners| + 1
    ensures r.scrollListeners[..|i.scrollListeners|] == i.scrollListeners && r.scrollListeners[|i.scrollListeners|] == l
    ensures r == i.(scrollListeners := r.scrollListeners)
  {
    i.(scrollListeners := i.scrollListeners + [l])
  }

  /** Listeners registered one after another are told about a key event
      in the order they were registered. */
  lemma KeyListenersInRegistrationOrder(i: Input, ls: seq<ListenerId>, key: int, action: int)
    requires i.keyListeners == []
    ensures OnKey(RegisterAll(i, ls), key, action).notices == seq(|ls|, j requires 0 <= j < |ls| => KeyNotice(ls[j], key, action))
  {
    RegisterAllAppends(i, ls);
  }

  function RegisterAll(i: Input, ls: seq<ListenerId>): Input
    decreases |ls|
  {
    if |ls| == 0 then i else RegisterAll(RegisterKeyListener(i, ls[0]), ls[1..])
  }

  lemma {:induction false} RegisterAllAppends(i: Input, ls: seq<ListenerId>)
    ensures RegisterAll(i, ls).keyListeners == i.keyListeners + ls
    decreases |ls|
  {
    if |ls| > 0 {
      RegisterAllAppends(RegisterKeyListener(i, ls[0]), ls[1..]);
      assert i.keyListeners + [ls[0]] + ls[1..] == i.keyListeners + ls;
    }
  }

  // ---- A frame of events ----

  datatype Event =
    | KeyEvent(key: int, action: int)
    | ButtonEvent(button: int, buttonAction: int)
    | CursorEvent(x: real, y: real)
    | ScrollEvent(xOffset: real, yOffset: real)

  function Dispatch(i: Input, e: Event): Step {
    match e
    case KeyEvent(k, a) => OnKey(i, k, a)
    case ButtonEvent(b, a) => OnMouseButton(i, b, a)
    case CursorEvent(x, y) => OnCursor(i, x, y)
    case ScrollEvent(xo, yo) => OnScroll(i, xo, yo)
  }

  /** The state after the callbacks for `events`, in order. */
  function Deliver(i: Input, events: seq<Event>): Input
    decreases |events|
  {
    if |events| == 0 then i else Deliver(Dispatch(i, events[0]).input, events[1..])
  }

  /** The action of the last key event for `key` in `events`, if any. */
  function LastKeyAction(events: seq<Event>, key: int): (r: Option<int>)
    ensures r.Some? <==> exists j :: 0 <= j < |events| && events[j].KeyEvent? && events[j].key == key
    decreases |events|
  {
    if |events| == 0 then None
    else
      var e := events[|events| - 1];
      if e.KeyEvent? && e.key == key then Some(e.action)
      else
        var r := LastKeyAction(events[..|events| - 1], key);
        assert forall j :: 0 <= j < |events| - 1 ==> events[..|events| - 1][j] == events[j];
        r
  }

  /** Over a frame (an update, then the callbacks of the frame's events),
      a key is down iff its last event was not a release, or it had no
      event and was down before; and it reads as pressed iff it is down
      now and was not down at the end of the previous frame. */
  lemma {:induction false} FrameKeyEdges(i: Input, events: seq<Event>, key: int)
    ensures var r := Deliver(Update(i), events);
      && (KeyDown(r, key) <==>
            match LastKeyAction(events, key)
            case Some(a) => a != RELEASE
            case None => KeyDown(i, key))
      && (KeyPressed(r, key) <==> KeyDown(r, key) && !KeyDown(i, key))
      && (KeyReleased(r, key) <==> !KeyDown(r, key) && KeyDown(i, key))
  {
    DeliverKeys(Update(i), events, key);
  }

  lemma {:induction false} DeliverKeys(i: Input, events: seq<Event>, key: int)
    ensures var r := Deliver(i, events);
      && r.previousKeys == i.previousKeys
      && (KeyDown(r, key) <==>
            match LastKeyAction(events, key)
            case Some(a) => a != RELEASE
            case None => KeyDown(i, key))
    decreases |events|
  {
    if |events| > 0 {
      var last := events[|events| - 1];
      var init := events[..|events| - 1];
      DeliverSnoc(i, init, last);
      assert events == init + [last];
      DeliverKeys(i, init, key);
    }
  }

  lemma {:induction false} DeliverSnoc(i: Input, init: seq<Event>, last: Event)
    ensures Deliver(i, init + [last]) == Dispatch(Deliver(i, init), last).input
    decreases |init|
  {
    if |init| == 0 {
      assert init + [last] == [last];
    } else {
      assert (init + [last])[1..] == init[1..] + [last];
      DeliverSnoc(Dispatch(i, init[0]).input, init[1..], last);
    }
  }

  /** Two scroll events in one frame leave only the second one's offset. */
  lemma ScrollOverwrites(i: Input, a: real, b: real, c: real, d: real)
    ensures OnScroll(OnScroll(i, a, b).input, c, d).input.scroll == d
  {
  }
}
