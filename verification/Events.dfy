/** The portable event stream: event records, modifier masks, and the client that receives them. */
module Events {

  /** The modifier flags, in the order of their bits, 1 << 0 to 1 << 15. */
  datatype Flag =
    | ShiftL | CtrlL | MetaL | AltL
    | ShiftR | CtrlR | MetaR | AltR
    | Button1 | Button2 | Button3 | Button4 | Button5
    | NumLock | CapsLock | ScrollLock

  /** A 16-bit modifier mask, as the set of its bits: `mask |= m` is a union and
      `mask &= ~m` a difference. */
  type Mask = set<Flag>

  /** The bits 0x1F00. */
  const BUTTON_FLAGS: Mask := {Button1, Button2, Button3, Button4, Button5}

  const VC_UNDEFINED := 0x0000
  const CHAR_UNDEFINED := 0xFFFF

  const MOUSE_NOBUTTON := 0
  const MOUSE_BUTTON1 := 1
  const MOUSE_BUTTON2 := 2
  const MOUSE_BUTTON3 := 3
  const MOUSE_BUTTON4 := 4
  const MOUSE_BUTTON5 := 5

  const WHEEL_UNIT_SCROLL := 1
  const WHEEL_BLOCK_SCROLL := 2
  const WHEEL_VERTICAL_DIRECTION := 3
  const WHEEL_HORIZONTAL_DIRECTION := 4

  datatype Kind =
    | HookEnabled | HookDisabled
    | KeyTyped | KeyPressed | KeyReleased
    | MouseClicked | MousePressed | MouseReleased | MouseMoved | MouseDragged | MouseWheel

  datatype Data =
    | NoData
    | Keyboard(keycode: nat, rawcode: nat, keychar: nat)
    | Mouse(button: nat, clicks: nat, x: int, y: int)
    | Wheel(wheelClicks: nat, wheelX: int, wheelY: int, scroll: nat, amount: nat, rotation: int, direction: nat)

  datatype Event = Event(kind: Kind, time: int, mask: Mask, data: Data)

  /** An event as dispatched, with the value the client left in its reserved field. */
  datatype Dispatched = Dispatched(event: Event, reserved: nat) {
    predicate Consumed() { reserved == 0x01 }
  }

  /** The client: it sees everything dispatched so far and the event, and chooses
      the reserved value; it can change nothing else. */
  type Client = (seq<Dispatched>, Event) -> nat

  function Send(client: Client, trace: seq<Dispatched>, e: Event): Dispatched {
    Dispatched(e, client(trace, e))
  }

  /** The KEY_TYPED events of a text. */
  function Typed(client: Client, trace: seq<Dispatched>, time: nat, mask: Mask, rawcode: nat, text: seq<nat>)
    : seq<Dispatched>
    decreases |text|
  {
    if text == [] then []
    else
      var d := Send(client, trace, Event(KeyTyped, time, mask, Keyboard(VC_UNDEFINED, rawcode, text[0])));
      [d] + Typed(client, trace + [d], time, mask, rawcode, text[1..])
  }

  /** The typed events of a text, written out. */
  lemma {:induction false} TypedShape(client: Client, trace: seq<Dispatched>, time: nat, mask: Mask, rawcode: nat,
                                      text: seq<nat>)
    ensures var t := Typed(client, trace, time, mask, rawcode, text);
            && |t| == |text|
            && forall i :: 0 <= i < |t| ==>
                 t[i].event == Event(KeyTyped, time, mask, Keyboard(VC_UNDEFINED, rawcode, text[i]))
    decreases |text|
  {
    if text != [] {
      var d := Send(client, trace, Event(KeyTyped, time, mask, Keyboard(VC_UNDEFINED, rawcode, text[0])));
      TypedShape(client, trace + [d], time, mask, rawcode, text[1..]);
    }
  }
}
