/** The Windows event translator: the keyboard and mouse hook procedures and the
    handlers they call. Native events carry true, unbounded times; the translator
    sees and stores them as 32-bit tick counts. */
module WindowsHook {
  import opened Options
  import opened CArithmetic
  import opened Events
  import C = ClickHistory
  import W = WheelAccumulator

  datatype Point = Point(x: int, y: int)

  /** Which button a mouse message names: the three standard messages, or an
      X-button message with the high word of its mouse data. */
  datatype Button = Left | Right | Middle | Extra(high: nat)

  datatype Native =
    | Start(time: nat)                 // hook_start_proc
    | Stop(time: nat)                  // hook_stop_proc
    | Restart(time: nat, down: Mask)   // win_hook_event_proc re-reads the modifiers
    | KeyDown(time: nat, nCode: int, vk: nat, scancode: nat, text: seq<nat>)
    | KeyUp(time: nat, nCode: int, vk: nat, scancode: nat)
    | ButtonDown(time: nat, nCode: int, button: Button, at: Point)
    | ButtonUp(time: nat, nCode: int, button: Button, at: Point)
    | Move(time: nat, nCode: int, at: Point)
    | WheelTurn(time: nat, nCode: int, turn: W.Turn, at: Point, setting: Option<nat>)
    | Unhandled(time: nat, nCode: int)

  const XBUTTON1 := 1
  const XBUTTON2 := 2
  const WHEEL_PAGESCROLL := 0xFFFF_FFFF

  const VK_CAPITAL := 0x14
  const VK_LWIN := 0x5B
  const VK_RWIN := 0x5C
  const VK_NUMLOCK := 0x90
  const VK_SCROLL := 0x91
  const VK_LSHIFT := 0xA0
  const VK_RSHIFT := 0xA1
  const VK_LCONTROL := 0xA2
  const VK_RCONTROL := 0xA3
  const VK_LMENU := 0xA4
  const VK_RMENU := 0xA5

  function KeyBits(vk: nat): Mask {
    if vk == VK_LSHIFT then {ShiftL}
    else if vk == VK_RSHIFT then {ShiftR}
    else if vk == VK_LCONTROL then {CtrlL}
    else if vk == VK_RCONTROL then {CtrlR}
    else if vk == VK_LMENU then {AltL}
    else if vk == VK_RMENU then {AltR}
    else if vk == VK_LWIN then {MetaL}
    else if vk == VK_RWIN then {MetaR}
    else if vk == VK_NUMLOCK then {NumLock}
    else if vk == VK_CAPITAL then {CapsLock}
    else if vk == VK_SCROLL then {ScrollLock}
    else {}
  }

  /** The mask bits of a button. The extra-button branch passes the button numbers 4
      and 5 where a mask is expected: binary 100 and 101 are MetaL and ShiftL bits. */
  function ButtonBits(b: Button): Mask {
    match b
    case Left => {Button1}
    case Right => {Button2}
    case Middle => {Button3}
    case Extra(high) =>
      if high == XBUTTON1 then {Button4}
      else if high == XBUTTON2 then {Button5}
      else if high == 4 then {MetaL}
      else if high == 5 then {ShiftL, MetaL}
      else {}
  }

  /** The button number reported for a press. */
  function PressNumber(b: Button): nat {
    match b
    case Left => MOUSE_BUTTON1
    case Right => MOUSE_BUTTON2
    case Middle => MOUSE_BUTTON3
    case Extra(high) =>
      if high == XBUTTON1 then MOUSE_BUTTON4 else if high == XBUTTON2 then MOUSE_BUTTON5 else high
  }

  /** The button number reported for a release: any other extra button reports 5. */
  function ReleaseNumber(b: Button): nat {
    if b.Extra? && b.high != XBUTTON1 then MOUSE_BUTTON5 else PressNumber(b)
  }

  datatype Config = Config(client: Client, limit: int, start: Mask)

  /** The translator's statics; the wheel residuals belong to the input helper. */
  datatype State = State(mask: Mask, clicks: C.Counter, lastClick: Point, wheel: W.Residuals)

  function MaskAfter(mask: Mask, n: Native): Mask {
    match n
    case Restart(_, down) => down
    case KeyDown(_, _, vk, _, _) => mask + KeyBits(vk)
    case KeyUp(_, _, vk, _) => mask - KeyBits(vk)
    case ButtonDown(_, _, b, _) => mask + ButtonBits(b)
    case ButtonUp(_, _, b, _) => mask - ButtonBits(b)
    case _ => mask
  }

  /** The gap to the last press, as the 32-bit signed difference of the source. */
  function Elapsed(c: C.Counter, time: nat): int {
    ToInt32(ToUInt32(time) - c.time)
  }

  function ClicksAfter(s: State, n: Native, limit: int): C.Counter {
    match n
    case ButtonDown(time, _, b, _) =>
      C.OnPress(s.clicks, PressNumber(b), ToUInt32(time), Elapsed(s.clicks, time) <= limit)
    case ButtonUp(time, _, b, _) =>
      C.OnRelease(s.clicks, ReleaseNumber(b), Elapsed(s.clicks, time) > limit)
    case Move(time, _, at) =>
      if at == s.lastClick then s.clicks else C.OnMotion(s.clicks, Elapsed(s.clicks, time) > limit)
    case WheelTurn(_, _, _, _, _) => C.OnWheel(s.clicks)
    case _ => s.clicks
  }

  function After(s: State, n: Native, limit: int): State {
    State(MaskAfter(s.mask, n),
          ClicksAfter(s, n, limit),
          if n.ButtonDown? then n.at else s.lastClick,
          if n.Start? then W.Residuals(0, 0)
          else if n.WheelTurn? then W.After(s.wheel, n.turn)
          else s.wheel)
  }

  function MouseData(button: nat, clicks: nat, at: Point): Data {
    Mouse(button, clicks, ToInt16(at.x), ToInt16(at.y))
  }

  function WheelData(s: State, n: Native): Data
    requires n.WheelTurn? && n.setting.Some?
  {
    var pages := n.setting.value == WHEEL_PAGESCROLL;
    Wheel(1, ToInt16(n.at.x), ToInt16(n.at.y),
          if pages then WHEEL_BLOCK_SCROLL else WHEEL_UNIT_SCROLL,
          if pages then 1 else n.setting.value % 0x1_0000,
          W.Rotation(s.wheel, n.turn),
          if n.turn.axis.Vertical? then WHEEL_VERTICAL_DIRECTION else WHEEL_HORIZONTAL_DIRECTION)
  }

  /** The time of a status event: GetMessageTime is a signed 32-bit tick count, which the
      conversion to 64 bits sign-extends. */
  function StatusTime(time: nat): nat {
    ToUInt64(ToInt32(time))
  }

  /** What is dispatched for one native event. */
  function Emitted(cfg: Config, s: State, trace: seq<Dispatched>, n: Native): seq<Dispatched> {
    var after := After(s, n, cfg.limit);
    var time := ToUInt32(n.time);
    match n
    case Start(_) => [Send(cfg.client, trace, Event(HookEnabled, StatusTime(n.time), {}, NoData))]
    case Stop(_) => [Send(cfg.client, trace, Event(HookDisabled, StatusTime(n.time), {}, NoData))]
    case KeyDown(_, _, vk, scancode, text) =>
      var d := Send(cfg.client, trace,
                    Event(KeyPressed, time, after.mask, Keyboard(scancode, vk % 0x1_0000, CHAR_UNDEFINED)));
      [d] + (if d.Consumed() then [] else Typed(cfg.client, trace + [d], time, after.mask, vk % 0x1_0000, text))
    case KeyUp(_, _, vk, scancode) =>
      [Send(cfg.client, trace,
            Event(KeyReleased, time, after.mask, Keyboard(scancode, vk % 0x1_0000, CHAR_UNDEFINED)))]
    case ButtonDown(_, _, b, at) =>
      [Send(cfg.client, trace,
            Event(MousePressed, time, after.mask, MouseData(PressNumber(b), after.clicks.count, at)))]
    case ButtonUp(_, _, b, at) =>
      var data := MouseData(ReleaseNumber(b), s.clicks.count, at);
      var d := Send(cfg.client, trace, Event(MouseReleased, time, after.mask, data));
      [d] + (if d.Consumed() || s.lastClick != at then []
             else [Send(cfg.client, trace + [d], Event(MouseClicked, time, after.mask, data))])
    case Move(_, _, at) =>
      if at == s.lastClick then []
      else
        var kind := if after.mask * BUTTON_FLAGS != {} then MouseDragged else MouseMoved;
        [Send(cfg.client, trace, Event(kind, time, after.mask, MouseData(MOUSE_NOBUTTON, after.clicks.count, at)))]
    case WheelTurn(_, _, _, _, setting) =>
      if setting.None? then []
      else [Send(cfg.client, trace, Event(MouseWheel, time, after.mask, WheelData(s, n)))]
    case _ => []
  }

  /** The reserved field of the static event after one native event: what the client
      left in the last event dispatched; 1 for a wheel turn that is given up. */
  function ReservedAfter(reserved: nat, n: Native, emitted: seq<Dispatched>): nat {
    if emitted != [] then emitted[|emitted| - 1].reserved
    else if n.WheelTurn? then 0x01
    else reserved
  }

  /** A native event is kept from the next hook if it may be and the static event's reserved
      field is 1. */
  predicate Swallows(nCode: int, reserved: nat) {
    !(nCode < 0 || reserved != 0x01)
  }

  /** The native events that come through a hook procedure. */
  predicate IsHooked(n: Native) {
    !n.Start? && !n.Stop? && !n.Restart?
  }

  function Initial(start: Mask): State {
    State(start, C.Counter(0, 0, C.NO_BUTTON), Point(0, 0), W.Residuals(0, 0))
  }

  function StateOf(cfg: Config, h: seq<Native>): State {
    if h == [] then Initial(cfg.start)
    else After(StateOf(cfg, h[..|h| - 1]), h[|h| - 1], cfg.limit)
  }

  function TraceOf(cfg: Config, h: seq<Native>): seq<Dispatched> {
    if h == [] then []
    else
      var before := h[..|h| - 1];
      TraceOf(cfg, before) + Emitted(cfg, StateOf(cfg, before), TraceOf(cfg, before), h[|h| - 1])
  }

  function ReservedOf(cfg: Config, h: seq<Native>): nat {
    if h == [] then 0
    else
      var before := h[..|h| - 1];
      ReservedAfter(ReservedOf(cfg, before), h[|h| - 1],
                    Emitted(cfg, StateOf(cfg, before), TraceOf(cfg, before), h[|h| - 1]))
  }

  /** The translator's statics, updated step by step. */
  class Hook {
    const cfg: Config
    var modifiers: Mask
    var clickCount: nat
    var clickTime: int
    var clickButton: nat
    var lastClick: Point
    var wheel: W.Accumulator
    var event: Event
    var reserved: nat
    var trace: seq<Dispatched>

    function Value(): State reads this, wheel {
      State(modifiers, C.Counter(clickCount, clickTime, clickButton), lastClick, wheel.Value())
    }

    constructor (cfg: Config)
      ensures this.cfg == cfg && Value() == Initial(cfg.start) && trace == [] && reserved == 0
      ensures fresh(wheel)
    {
      this.cfg := cfg;
      modifiers := cfg.start;
      clickCount, clickTime, clickButton := 0, 0, MOUSE_NOBUTTON;
      lastClick := Point(0, 0);
      wheel := new W.Accumulator();
      event := Event(HookDisabled, 0, {}, NoData);
      reserved := 0;
      trace := [];
    }

    /** dispatch_event. */
    method Dispatch()
      modifies this`reserved, this`trace
      ensures trace == old(trace) + [Send(cfg.client, old(trace), event)]
      ensures reserved == trace[|trace| - 1].reserved
    {
      var d := Send(cfg.client, trace, event);
      reserved := d.reserved;
      trace := trace + [d];
    }

    twostate predicate Stepped(n: Native)
      reads this, wheel
    {
      && wheel == old(wheel)
      && Value() == After(old(Value()), n, cfg.limit)
      && trace == old(trace) + Emitted(cfg, old(Value()), old(trace), n)
      && reserved == ReservedAfter(old(reserved), n, Emitted(cfg, old(Value()), old(trace), n))
    }

    method ProcessTyped(n: Native)
      requires n.KeyDown?
      modifies this`event, this`reserved, this`trace
      ensures var typed := Typed(cfg.client, old(trace), ToUInt32(n.time), modifiers, n.vk % 0x1_0000, n.text);
              && trace == old(trace) + typed
              && reserved == if typed == [] then old(reserved) else typed[|typed| - 1].reserved
    {
      ghost var time, raw := ToUInt32(n.time), n.vk % 0x1_0000;
      ghost var typed := Typed(cfg.client, old(trace), time, modifiers, raw, n.text);
      var i := 0;
      while i < |n.text|
        invariant i <= |n.text|
        invariant old(trace) + typed == trace + Typed(cfg.client, trace, time, modifiers, raw, n.text[i..])
        invariant |trace| == |old(trace)| + i && (i == 0 ==> reserved == old(reserved))
        invariant i > 0 ==> reserved == trace[|trace| - 1].reserved
      {
        event := Event(KeyTyped, ToUInt32(n.time), modifiers, Keyboard(VC_UNDEFINED, n.vk % 0x1_0000, n.text[i]));
        assert n.text[i..][1..] == n.text[i + 1..];
        Dispatch();
        i := i + 1;
      }
      TypedShape(cfg.client, old(trace), time, modifiers, raw, n.text);
      assert trace == old(trace) + typed;
    }

    method ProcessKeyPressed(n: Native)
      requires n.KeyDown?
      modifies this
      ensures Stepped(n)
    {
      modifiers := modifiers + KeyBits(n.vk);
      event := Event(KeyPressed, ToUInt32(n.time), modifiers, Keyboard(n.scancode, n.vk % 0x1_0000, CHAR_UNDEFINED));
      Dispatch();
      if reserved != 0x01 {
        ProcessTyped(n);
      }
    }

    method ProcessKeyReleased(n: Native)
      requires n.KeyUp?
      modifies this
      ensures Stepped(n)
    {
      modifiers := modifiers - KeyBits(n.vk);
      event := Event(KeyReleased, ToUInt32(n.time), modifiers, Keyboard(n.scancode, n.vk % 0x1_0000, CHAR_UNDEFINED));
      Dispatch();
    }

    method ProcessButtonPressed(n: Native)
      requires n.ButtonDown?
      modifies this
      ensures Stepped(n)
    {
      modifiers := modifiers + ButtonBits(n.button);
      var button := PressNumber(n.button);
      var timestamp := ToUInt32(n.time);
      if button == clickButton && ToInt32(timestamp - clickTime) <= cfg.limit {
        if clickCount < C.COUNT_MAX {
          clickCount := clickCount + 1;
        }
      } else {
        clickCount := 1;
        clickButton := button;
      }
      clickTime := timestamp;
      lastClick := n.at;
      event := Event(MousePressed, timestamp, modifiers, MouseData(button, clickCount, n.at));
      Dispatch();
    }

    method ProcessButtonReleased(n: Native)
      requires n.ButtonUp?
      modifies this
      ensures Stepped(n)
    {
      modifiers := modifiers - ButtonBits(n.button);
      var button := ReleaseNumber(n.button);
      event := Event(MouseReleased, ToUInt32(n.time), modifiers, MouseData(button, clickCount, n.at));
      Dispatch();
      if reserved != 0x01 && lastClick.x == n.at.x && lastClick.y == n.at.y {
        event := Event(MouseClicked, ToUInt32(n.time), modifiers, MouseData(button, clickCount, n.at));
        Dispatch();
      }
      if button == clickButton && ToInt32(event.time - clickTime) > cfg.limit {
        clickCount := 0;
      }
    }

    method ProcessMouseMoved(n: Native)
      requires n.Move?
      modifies this
      ensures Stepped(n)
    {
      if lastClick.x != n.at.x || lastClick.y != n.at.y {
        if clickCount != 0 && ToInt32(ToUInt32(n.time) - clickTime) > cfg.limit {
          clickCount := 0;
        }
        event := Event(if modifiers * BUTTON_FLAGS != {} then MouseDragged else MouseMoved, ToUInt32(n.time), modifiers,
                       MouseData(MOUSE_NOBUTTON, clickCount, n.at));
        Dispatch();
      }
    }

    method ProcessMouseWheel(n: Native)
      requires n.WheelTurn?
      modifies this, wheel
      ensures Stepped(n)
    {
      clickCount := 1;
      clickButton := MOUSE_NOBUTTON;
      ghost var before := Value();
      var rotation := wheel.GetRotation(n.turn.delta, n.turn.axis);
      match n.setting {
        case Some(amount) =>
          event := Event(MouseWheel, ToUInt32(n.time), modifiers,
                         Wheel(clickCount, ToInt16(n.at.x), ToInt16(n.at.y),
                               if amount == WHEEL_PAGESCROLL then WHEEL_BLOCK_SCROLL else WHEEL_UNIT_SCROLL,
                               if amount == WHEEL_PAGESCROLL then 1 else amount % 0x1_0000,
                               rotation,
                               if n.turn.axis.Vertical? then WHEEL_VERTICAL_DIRECTION else WHEEL_HORIZONTAL_DIRECTION));
          Dispatch();
        case None =>
          reserved := 0x01;
      }
    }

    /** keyboard_hook_event_proc and mouse_hook_event_proc: the native event is swallowed
        unless it is passed to the next hook. */
    method HookProc(n: Native) returns (swallowed: bool)
      requires IsHooked(n)
      modifies this, wheel
      ensures Stepped(n)
      ensures swallowed <==> Swallows(n.nCode, reserved)
    {
      match n {
        case KeyDown(_, _, _, _, _) => ProcessKeyPressed(n);
        case KeyUp(_, _, _, _) => ProcessKeyReleased(n);
        case ButtonDown(_, _, _, _) => ProcessButtonPressed(n);
        case ButtonUp(_, _, _, _) => ProcessButtonReleased(n);
        case Move(_, _, _) => ProcessMouseMoved(n);
        case WheelTurn(_, _, _, _, _) => ProcessMouseWheel(n);
        case Unhandled(_, _) =>
      }
      swallowed := !(n.nCode < 0 || reserved != 0x01);
    }

    /** The procedures outside the hooks: start, stop, and the restart that re-reads
        the modifiers. */
    method StatusProc(n: Native)
      requires !IsHooked(n)
      modifies this, wheel
      ensures Stepped(n)
    {
      match n {
        case Start(_) =>
          wheel.Reset();
          event := Event(HookEnabled, ToUInt64(ToInt32(n.time)), {}, NoData);
          Dispatch();
        case Stop(_) =>
          event := Event(HookDisabled, ToUInt64(ToInt32(n.time)), {}, NoData);
          Dispatch();
        case Restart(_, down) =>
          modifiers := down;
      }
    }

    /** A whole session: the statics are the functions of the history. */
    method ProcessAll(h: seq<Native>)
      requires Value() == Initial(cfg.start) && trace == [] && reserved == 0
      modifies this, wheel
      ensures Value() == StateOf(cfg, h) && trace == TraceOf(cfg, h) && reserved == ReservedOf(cfg, h)
    {
      for i := 0 to |h|
        invariant wheel == old(wheel)
        invariant Value() == StateOf(cfg, h[..i]) && trace == TraceOf(cfg, h[..i])
        invariant reserved == ReservedOf(cfg, h[..i])
      {
        assert h[..i + 1][..i] == h[..i];
        if IsHooked(h[i]) {
          var _ := HookProc(h[i]);
        } else {
          StatusProc(h[i]);
        }
      }
      assert h[..|h|] == h;
    }
  }
}
