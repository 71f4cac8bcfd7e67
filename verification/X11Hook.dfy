/** The X11 event translator, hook_event_proc: the state it keeps and the events it
    dispatches for every recorded native event. */
module X11Hook {
  import opened Options
  import opened CArithmetic
  import opened Events
  import C = ClickHistory
  import Utf16

  /** The state of the lock LEDs; None when they cannot be read. */
  datatype Leds = Leds(num: bool, caps: bool, scroll: bool)

  /** A recorded native event. Keys arrive with the scancode, keysym and UTF-32 code
      that the keyboard library reports for them, buttons with the pointer map in
      force, positions relative to the first screen. Times are true server times in
      milliseconds, of which the server records the low 32 bits. */
  datatype Native =
    | StartOfData(time: nat)
    | EndOfData(time: nat)
    | KeyPress(time: nat, scancode: nat, keysym: nat, code: Option<nat>, leds: Option<Leds>)
    | KeyRelease(time: nat, scancode: nat, keysym: nat, leds: Option<Leds>)
    | ButtonPress(time: nat, detail: nat, pointerMap: Option<seq<nat>>, x: int, y: int)
    | ButtonRelease(time: nat, detail: nat, pointerMap: Option<seq<nat>>, x: int, y: int)
    | Motion(time: nat, x: int, y: int)
    | Unhandled(time: nat)

  const VC_SHIFT_L := 0x002A
  const VC_SHIFT_R := 0x0036
  const VC_CONTROL_L := 0x001D
  const VC_CONTROL_R := 0x0E1D
  const VC_ALT_L := 0x0038
  const VC_ALT_R := 0x0E38
  const VC_META_L := 0x0E5B
  const VC_META_R := 0x0E5C

  // The logical button numbers after mapping.
  const WHEEL_UP := 4
  const WHEEL_DOWN := 5
  const WHEEL_LEFT := 6
  const WHEEL_RIGHT := 7
  const X_BUTTON1 := 8
  const X_BUTTON2 := 9

  /** button_map_lookup: the pointer map, then the swap of buttons 2 and 3. */
  function MapLookup(detail: nat, pointerMap: Option<seq<nat>>): nat {
    var mapped :=
      if pointerMap.Some? && 0 < detail <= |pointerMap.value| then pointerMap.value[detail - 1] else detail;
    if mapped == 2 then 3 else if mapped == 3 then 2 else mapped
  }

  predicate IsWheel(logical: nat) {
    logical == WHEEL_UP || logical == WHEEL_DOWN || logical == WHEEL_LEFT || logical == WHEEL_RIGHT
  }

  /** The reported number of a logical button. */
  function ButtonNumber(logical: nat): nat {
    if logical == 1 then MOUSE_BUTTON1
    else if logical == 2 then MOUSE_BUTTON2
    else if logical == 3 then MOUSE_BUTTON3
    else if logical == X_BUTTON1 then MOUSE_BUTTON4
    else if logical == X_BUTTON2 then MOUSE_BUTTON5
    else MOUSE_NOBUTTON
  }

  /** The mask bits of a logical button: both extra buttons use Button5. */
  function ButtonBits(logical: nat): Mask {
    if logical == 1 then {Button1}
    else if logical == 2 then {Button2}
    else if logical == 3 then {Button3}
    else if logical == X_BUTTON1 || logical == X_BUTTON2 then {Button5}
    else {}
  }

  /** The mask bits of a modifier key. */
  function KeyBits(scancode: nat): Mask {
    if scancode == VC_SHIFT_L then {ShiftL}
    else if scancode == VC_SHIFT_R then {ShiftR}
    else if scancode == VC_CONTROL_L then {CtrlL}
    else if scancode == VC_CONTROL_R then {CtrlR}
    else if scancode == VC_ALT_L then {AltL}
    else if scancode == VC_ALT_R then {AltR}
    else if scancode == VC_META_L then {MetaL}
    else if scancode == VC_META_R then {MetaR}
    else {}
  }

  /** initialize_locks. */
  function Locks(mask: Mask, leds: Option<Leds>): Mask {
    match leds
    case None => mask
    case Some(on) =>
      (mask - {NumLock, CapsLock, ScrollLock})
      + (if on.num then {NumLock} else {})
      + (if on.caps then {CapsLock} else {})
      + (if on.scroll then {ScrollLock} else {})
  }

  predicate IsKeypad(scancode: nat) {
    0x0047 <= scancode <= 0x0049 || 0x004B <= scancode <= 0x004D || 0x004F <= scancode <= 0x0053
  }

  /** The keypad keys are reported with 0xEE00 or-ed in while Num Lock is off. */
  function ReportedKeycode(scancode: nat, mask: Mask): nat {
    if NumLock !in mask && IsKeypad(scancode) then scancode + 0xEE00 else scancode
  }

  datatype Config = Config(client: Client, limit: int, start: Mask)

  datatype State = State(mask: Mask, dragged: bool, clicks: C.Counter)

  function MaskAfter(mask: Mask, n: Native): Mask {
    match n
    case KeyPress(_, scancode, _, _, leds) => Locks(mask + KeyBits(scancode), leds)
    case KeyRelease(_, scancode, _, leds) => Locks(mask - KeyBits(scancode), leds)
    case ButtonPress(_, detail, pointerMap, _, _) => mask + ButtonBits(MapLookup(detail, pointerMap))
    case ButtonRelease(_, detail, pointerMap, _, _) => mask - ButtonBits(MapLookup(detail, pointerMap))
    case _ => mask
  }

  /** The gap to the last press, as the 64-bit signed difference of the 32-bit times. */
  function Elapsed(c: C.Counter, time: nat): int {
    ToInt64(ToUInt32(time) - c.time)
  }

  function ClicksAfter(c: C.Counter, n: Native, limit: int): C.Counter {
    match n
    case ButtonPress(time, detail, pointerMap, _, _) =>
      var logical := MapLookup(detail, pointerMap);
      if IsWheel(logical) then C.OnWheel(c)
      else C.OnPress(c, ButtonNumber(logical), ToUInt32(time), Elapsed(c, time) <= limit)
    case ButtonRelease(time, detail, pointerMap, _, _) =>
      var logical := MapLookup(detail, pointerMap);
      if IsWheel(logical) then c
      else C.OnRelease(c, ButtonNumber(logical), Elapsed(c, time) > limit)
    case Motion(time, _, _) => C.OnMotion(c, Elapsed(c, time) > limit)
    case _ => c
  }

  function After(s: State, n: Native, limit: int): State {
    State(MaskAfter(s.mask, n),
          if n.Motion? then s.mask * BUTTON_FLAGS != {} else s.dragged,
          ClicksAfter(s.clicks, n, limit))
  }

  /** The text of a key press: at most two UTF-16 units. */
  function Text(code: Option<nat>): seq<nat> {
    if code.Some? then Utf16.Encode(code.value) else []
  }

  function WheelData(detail: nat, x: int, y: int): Data {
    Wheel(1, x, y, WHEEL_UNIT_SCROLL, 3,
          if detail == WHEEL_UP || detail == WHEEL_LEFT then -1 else 1,
          if detail == WHEEL_UP || detail == WHEEL_DOWN
          then WHEEL_VERTICAL_DIRECTION else WHEEL_HORIZONTAL_DIRECTION)
  }

  /** What is dispatched for one native event. */
  function Emitted(cfg: Config, s: State, trace: seq<Dispatched>, n: Native): seq<Dispatched> {
    var after, time := After(s, n, cfg.limit), ToUInt32(n.time);
    match n
    case StartOfData(_) => [Send(cfg.client, trace, Event(HookEnabled, time, {}, NoData))]
    case EndOfData(_) => [Send(cfg.client, trace, Event(HookDisabled, time, {}, NoData))]
    case KeyPress(_, scancode, keysym, code, _) =>
      var data := Keyboard(ReportedKeycode(scancode, after.mask), keysym % 0x1_0000, CHAR_UNDEFINED);
      var d := Send(cfg.client, trace, Event(KeyPressed, time, after.mask, data));
      [d] + (if d.Consumed() then []
             else Typed(cfg.client, trace + [d], time, after.mask, keysym % 0x1_0000, Text(code)))
    case KeyRelease(_, scancode, keysym, _) =>
      var data := Keyboard(ReportedKeycode(scancode, after.mask), keysym % 0x1_0000, CHAR_UNDEFINED);
      [Send(cfg.client, trace, Event(KeyReleased, time, after.mask, data))]
    case ButtonPress(_, detail, pointerMap, x, y) =>
      var logical := MapLookup(detail, pointerMap);
      if IsWheel(logical) then
        [Send(cfg.client, trace, Event(MouseWheel, time, after.mask, WheelData(detail, x, y)))]
      else
        [Send(cfg.client, trace,
              Event(MousePressed, time, after.mask, Mouse(ButtonNumber(logical), after.clicks.count, x, y)))]
    case ButtonRelease(_, detail, pointerMap, x, y) =>
      var logical := MapLookup(detail, pointerMap);
      if IsWheel(logical) then []
      else
        var data := Mouse(ButtonNumber(logical), s.clicks.count, x, y);
        var d := Send(cfg.client, trace, Event(MouseReleased, time, after.mask, data));
        [d] + (if d.Consumed() || s.dragged then []
               else [Send(cfg.client, trace + [d], Event(MouseClicked, time, after.mask, data))])
    case Motion(_, x, y) =>
      var kind := if after.dragged then MouseDragged else MouseMoved;
      [Send(cfg.client, trace,
            Event(kind, time, after.mask, Mouse(MOUSE_NOBUTTON, after.clicks.count, x, y)))]
    case Unhandled(_) => []
  }

  /** The state hook_run starts from, with whatever modifiers are already down. */
  function Initial(start: Mask): State {
    State(start, false, C.Counter(0, 0, C.NO_BUTTON))
  }

  /** The state after a history. */
  function StateOf(cfg: Config, h: seq<Native>): State {
    if h == [] then Initial(cfg.start)
    else After(StateOf(cfg, h[..|h| - 1]), h[|h| - 1], cfg.limit)
  }

  /** Everything dispatched during a history. */
  function TraceOf(cfg: Config, h: seq<Native>): seq<Dispatched> {
    if h == [] then []
    else
      var before := h[..|h| - 1];
      TraceOf(cfg, before) + Emitted(cfg, StateOf(cfg, before), TraceOf(cfg, before), h[|h| - 1])
  }

  /** The translator itself: hook->input and the shared static event, updated step by step. */
  class Hook {
    const cfg: Config
    var mask: Mask
    var isDragged: bool
    var clickCount: nat
    var clickTime: int
    var clickButton: nat
    var event: Event
    var reserved: nat
    var trace: seq<Dispatched>

    function Value(): State reads this {
      State(mask, isDragged, C.Counter(clickCount, clickTime, clickButton))
    }

    constructor (cfg: Config)
      ensures this.cfg == cfg && Value() == Initial(cfg.start) && trace == []
    {
      this.cfg := cfg;
      mask := cfg.start;
      isDragged := false;
      clickCount, clickTime, clickButton := 0, 0, MOUSE_NOBUTTON;
      event := Event(HookDisabled, 0, {}, NoData);
      reserved := 0;
      trace := [];
    }

    /** dispatch_event. */
    method Dispatch()
      modifies this`reserved, this`trace
      ensures trace == old(trace) + [Send(cfg.client, old(trace), event)]
      ensures reserved == trace[|trace| - 1].reserved
    {
      var d := Send(cfg.client, trace, event);
      reserved := d.reserved;
      trace := trace + [d];
    }

    method InitializeLocks(leds: Option<Leds>)
      modifies this`mask
      ensures mask == Locks(old(mask), leds)
    {
      match leds {
        case None =>
        case Some(on) =>
          if on.caps { mask := mask + {CapsLock}; } else { mask := mask - {CapsLock}; }
          if on.num { mask := mask + {NumLock}; } else { mask := mask - {NumLock}; }
          if on.scroll { mask := mask + {ScrollLock}; } else { mask := mask - {ScrollLock}; }
      }
    }

    method ProcessKeyPress(n: Native)
      requires n.KeyPress?
      modifies this
      ensures Value() == After(old(Value()), n, cfg.limit)
      ensures trace == old(trace) + Emitted(cfg, old(Value()), old(trace), n)
    {
      var timestamp := ToUInt32(n.time);
      var text := Text(n.code);
      mask := mask + KeyBits(n.scancode);
      InitializeLocks(n.leds);
      event := Event(KeyPressed, timestamp, mask,
                     Keyboard(ReportedKeycode(n.scancode, mask), n.keysym % 0x1_0000, CHAR_UNDEFINED));
      Dispatch();
      if reserved != 0x01 {
        ProcessTyped(timestamp, n.keysym % 0x1_0000, text);
      }
    }

    method ProcessTyped(timestamp: nat, rawcode: nat, text: seq<nat>)
      modifies this`event, this`reserved, this`trace
      ensures trace == old(trace) + Typed(cfg.client, old(trace), timestamp, mask, rawcode, text)
    {
      var i := 0;
      while i < |text|
        invariant i <= |text|
        invariant old(trace) + Typed(cfg.client, old(trace), timestamp, mask, rawcode, text)
               == trace + Typed(cfg.client, trace, timestamp, mask, rawcode, text[i..])
      {
        event := Event(KeyTyped, timestamp, mask, Keyboard(VC_UNDEFINED, rawcode, text[i]));
        assert text[i..][1..] == text[i + 1..];
        Dispatch();
        i := i + 1;
      }
    }

    method ProcessKeyRelease(n: Native)
      requires n.KeyRelease?
      modifies this
      ensures Value() == After(old(Value()), n, cfg.limit)
      ensures trace == old(trace) + Emitted(cfg, old(Value()), old(trace), n)
    {
      var timestamp := ToUInt32(n.time);
      mask := mask - KeyBits(n.scancode);
      InitializeLocks(n.leds);
      event := Event(KeyReleased, timestamp, mask,
                     Keyboard(ReportedKeycode(n.scancode, mask), n.keysym % 0x1_0000, CHAR_UNDEFINED));
      Dispatch();
    }

    method ProcessButtonPress(n: Native)
      requires n.ButtonPress?
      modifies this
      ensures Value() == After(old(Value()), n, cfg.limit)
      ensures trace == old(trace) + Emitted(cfg, old(Value()), old(trace), n)
    {
      var timestamp := ToUInt32(n.time);
      var logical := MapLookup(n.detail, n.pointerMap);
      if IsWheel(logical) {
        clickCount := 1;
        clickButton := MOUSE_NOBUTTON;
        event := Event(MouseWheel, timestamp, mask, WheelData(n.detail, n.x, n.y));
        Dispatch();
      } else {
        var button := ButtonNumber(logical);
        mask := mask + ButtonBits(logical);
        if button == clickButton && ToInt64(timestamp - clickTime) <= cfg.limit {
          if clickCount < C.COUNT_MAX {
            clickCount := clickCount + 1;
          }
        } else {
          clickCount := 1;
          clickButton := button;
        }
        clickTime := ToInt64(timestamp);
        event := Event(MousePressed, timestamp, mask, Mouse(button, clickCount, n.x, n.y));
        Dispatch();
      }
    }

    method ProcessButtonRelease(n: Native)
      requires n.ButtonRelease?
      modifies this
      ensures Value() == After(old(Value()), n, cfg.limit)
      ensures trace == old(trace) + Emitted(cfg, old(Value()), old(trace), n)
    {
      var timestamp := ToUInt32(n.time);
      var logical := MapLookup(n.detail, n.pointerMap);
      if !IsWheel(logical) {
        var button := ButtonNumber(logical);
        mask := mask - ButtonBits(logical);
        event := Event(MouseReleased, timestamp, mask, Mouse(button, clickCount, n.x, n.y));
        Dispatch();
        if reserved != 0x01 && !isDragged {
          event := Event(MouseClicked, timestamp, mask, Mouse(button, clickCount, n.x, n.y));
          Dispatch();
        }
        if button == clickButton && ToInt64(event.time - clickTime) > cfg.limit {
          clickCount := 0;
        }
      }
    }

    method ProcessMotion(n: Native)
      requires n.Motion?
      modifies this
      ensures Value() == After(old(Value()), n, cfg.limit)
      ensures trace == old(trace) + Emitted(cfg, old(Value()), old(trace), n)
    {
      var timestamp := ToUInt32(n.time);
      if clickCount != 0 && ToInt64(timestamp - clickTime) > cfg.limit {
        clickCount := 0;
      }
      isDragged := mask * BUTTON_FLAGS != {};
      event := Event(if isDragged then MouseDragged else MouseMoved, timestamp, mask,
                     Mouse(MOUSE_NOBUTTON, clickCount, n.x, n.y));
      Dispatch();
    }

    /** hook_event_proc. */
    method Process(n: Native)
      modifies this
      ensures Value() == After(old(Value()), n, cfg.limit)
      ensures trace == old(trace) + Emitted(cfg, old(Value()), old(trace), n)
    {
      match n {
        case StartOfData(time) =>
          event := Event(HookEnabled, ToUInt32(time), {}, NoData);
          Dispatch();
        case EndOfData(time) =>
          event := Event(HookDisabled, ToUInt32(time), {}, NoData);
          Dispatch();
        case KeyPress(_, _, _, _, _) => ProcessKeyPress(n);
        case KeyRelease(_, _, _, _) => ProcessKeyRelease(n);
        case ButtonPress(_, _, _, _, _) => ProcessButtonPress(n);
        case ButtonRelease(_, _, _, _, _) => ProcessButtonRelease(n);
        case Motion(_, _, _) => ProcessMotion(n);
        case Unhandled(_) =>
      }
    }

    /** A whole session: the incremental state is the function of the history. */
    method ProcessAll(h: seq<Native>)
      requires Value() == Initial(cfg.start) && trace == []
      modifies this
      ensures Value() == StateOf(cfg, h) && trace == TraceOf(cfg, h)
    {
      for i := 0 to |h|
        invariant Value() == StateOf(cfg, h[..i]) && trace == TraceOf(cfg, h[..i])
      {
        assert h[..i + 1][..i] == h[..i];
        Process(h[i]);
      }
      assert h[..|h|] == h;
    }
  }
}
