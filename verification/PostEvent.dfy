/** Posting synthetic mouse input on Windows: the scaling of positions to the absolute
    coordinate space, and the recursion by which a button event first posts a move. */
module PostEvent {
  import opened CArithmetic
  import opened Events

  const MAX_WINDOWS_COORD_VALUE := 65536
  const WHEEL_DELTA := 120
  const XBUTTON1 := 1
  const XBUTTON2 := 2

  // ---------- Coordinate scaling ----------

  predicate IsInt32(x: int) {
    -0x8000_0000 <= x <= 0x7FFF_FFFF
  }

  predicate IsInt16(x: int) {
    -0x8000 <= x <= 0x7FFF
  }

  /** convert_to_relative_position. */
  function Scale(coordinate: int, size: int): int
    requires size > 0
  {
    Quot(coordinate * MAX_WINDOWS_COORD_VALUE, size) + (if coordinate > 0 then 1 else -1)
  }

  /** Negative coordinates mirror positive ones. */
  lemma ScaleMirrors(c: int, size: int)
    requires size > 0 && c > 0
    ensures Scale(-c, size) == -Scale(c, size)
  {}

  /** The scaled value is the first one past the exact quotient. */
  lemma ScaleBounds(c: int, size: int)
    requires size > 0 && c > 0
    ensures (Scale(c, size) - 1) * size <= c * MAX_WINDOWS_COORD_VALUE < Scale(c, size) * size
  {}

  /** The arithmetic stays within 32 bits for every 16-bit coordinate and non-zero
      screen size, but for one corner: the lowest coordinate on a one-pixel screen. */
  lemma ScaleFits(c: int, size: int)
    requires IsInt16(c) && 1 <= size <= 65535
    ensures IsInt32(c * MAX_WINDOWS_COORD_VALUE)
    ensures IsInt32(Scale(c, size)) <==> !(size == 1 && c == -0x8000)
  {
    var m := c * MAX_WINDOWS_COORD_VALUE;
    if size >= 2 {
      assert -m < 0x8000_0001 && m < 0x8000_0000;
      HalvesAtLeast(if m >= 0 then m else -m, size);
    } else {
      assert Quot(m, 1) == m;
    }
  }

  lemma HalvesAtLeast(m: nat, size: int)
    requires size >= 2
    ensures m / size <= m / 2
  {
    var q := m / size;
    assert q * size <= m;
    assert q * 2 <= q * size;
  }

  /** What Windows makes of an absolute position gives the coordinate back exactly. */
  lemma ScaleRecovers(c: int, size: int)
    requires 1 <= size <= 65535
    ensures Quot(Scale(c, size) * size, MAX_WINDOWS_COORD_VALUE) == c
  {
    if c > 0 {
      RecoverPositive(c, size);
    } else if c < 0 {
      ScaleMirrors(-c, size);
      RecoverPositive(-c, size);
      NegatedQuot(Scale(-c, size), size);
    } else {
      assert Scale(0, size) * size == -size;
    }
  }

  lemma NegatedQuot(p: int, size: int)
    requires p * size >= 0
    ensures Quot(-p * size, MAX_WINDOWS_COORD_VALUE) == -(p * size / MAX_WINDOWS_COORD_VALUE)
  {
    assert -p * size == -(p * size);
  }

  lemma RecoverPositive(c: int, size: int)
    requires 1 <= size <= 65535 && c > 0
    ensures Scale(c, size) * size >= 0 && Scale(c, size) * size / MAX_WINDOWS_COORD_VALUE == c
  {
    ScaleBounds(c, size);
    var p := Scale(c, size) * size;
    assert (Scale(c, size) - 1) * size == p - size;
    assert c * MAX_WINDOWS_COORD_VALUE < p <= c * MAX_WINDOWS_COORD_VALUE + size;
  }

  /** Scaling is strictly increasing. */
  lemma ScaleIncreases(c: int, d: int, size: int)
    requires 1 <= size <= 65535 && c < d
    ensures Scale(c, size) < Scale(d, size)
  {
    ScaleRecovers(c, size);
    ScaleRecovers(d, size);
    RecoveredOrder(Scale(c, size), Scale(d, size), size);
  }

  /** Positions recovered in one order were scaled in that order. */
  lemma RecoveredOrder(p: int, q: int, size: int)
    requires 1 <= size
    requires Quot(p * size, MAX_WINDOWS_COORD_VALUE) < Quot(q * size, MAX_WINDOWS_COORD_VALUE)
    ensures p < q
  {
    if q <= p {
      ProductMonotone(q, p, size);
      QuotMonotone(q * size, p * size);
    }
  }

  lemma ProductMonotone(p: int, q: int, size: int)
    requires p <= q && 0 <= size
    ensures p * size <= q * size
  {}

  lemma QuotMonotone(p: int, q: int)
    requires p <= q
    ensures Quot(p, MAX_WINDOWS_COORD_VALUE) <= Quot(q, MAX_WINDOWS_COORD_VALUE)
  {}

  /** A coordinate scales into the coordinate space exactly if it is inside the screen and
      not 0, which scales to -1. */
  lemma ScaleInside(c: int, size: int)
    requires 1 <= size <= 65535
    ensures 0 <= Scale(c, size) <= 65535 <==> 0 < c < size
    ensures Scale(0, size) == -1
  {
    assert Scale(0, size) == -1;
    if 0 < c < size {
      ScaleBounds(c, size);
      FactorBelow(Scale(c, size) - 1, 65535, size);
      FactorBelow(0, Scale(c, size), size);
    } else if c >= size {
      ScaleBounds(c, size);
      ProductMonotone(size, c, MAX_WINDOWS_COORD_VALUE);
      FactorBelow(MAX_WINDOWS_COORD_VALUE, Scale(c, size), size);
    } else if c < 0 {
      ScaleIncreases(c, 0, size);
    }
  }

  lemma FactorBelow(p: int, q: int, size: int)
    requires 0 <= size && p * size < q * size
    ensures p < q
  {
    if q <= p {
      ProductMonotone(q, p, size);
    }
  }

  // ---------- Posting ----------

  datatype Screen = Screen(width: nat, height: nat)

  datatype Flags =
    | Absolute   // MOUSEEVENTF_ABSOLUTE | MOUSEEVENTF_MOVE
    | LeftDown | RightDown | MiddleDown | XDown
    | LeftUp | RightUp | MiddleUp | XUp
    | Roll       // MOUSEEVENTF_WHEEL

  /** The INPUT record handed to SendInput. */
  datatype Input =
    | MouseInput(flags: Flags, dx: int, dy: int, mouseData: int)
    | KeyInput(vk: nat, up: bool, extended: bool)

  /** The data union of an event to post. Its first four 16-bit words are named by its mouse
      view; WheelX, WheelY and WheelType read them by its wheel view, which starts with
      clicks, x, y and the type in a byte of its own. `vk` is the virtual key that the
      scancode tables give for the keycode, 0 if none. */
  datatype Data = Data(button: nat, clicks: nat, x: int, y: int, amount: nat, rotation: int, vk: nat)

  function WheelX(d: Data): int {
    ToInt16(d.clicks)
  }

  function WheelY(d: Data): int {
    d.x
  }

  function WheelType(d: Data): nat {
    d.y % 0x100
  }

  /** The union after a client has filled in its wheel view; the byte after the type is padding. */
  function WheelEvent(x: int, y: int, scroll: nat, padding: nat, amount: nat, rotation: int): Data {
    Data(1, x % 0x1_0000, y, ToInt16(scroll + 0x100 * padding), amount, rotation, 0)
  }

  /** The wheel view gives back what was filled in, whatever the padding. */
  lemma WheelViews(x: int, y: int, scroll: nat, padding: nat, amount: nat, rotation: int)
    requires IsInt16(x) && scroll < 0x100
    ensures var d := WheelEvent(x, y, scroll, padding, amount, rotation);
            WheelX(d) == x && WheelY(d) == y && WheelType(d) == scroll
  {
    hide ToInt16;
    SignedWord(x);
    LowByte(scroll + 0x100 * padding);
    SameLowByte(scroll + 0x100 * padding, scroll, padding);
  }

  lemma SignedWord(x: int)
    requires IsInt16(x)
    ensures ToInt16(x % 0x1_0000) == x
  {
    assert x % 0x1_0000 == if x >= 0 then x else x + 0x1_0000;
  }

  lemma LowByte(word: nat)
    ensures ToInt16(word) % 0x100 == word % 0x100
  {
    var q := (word + 0x8000) / 0x1_0000;
    assert ToInt16(word) == word - 0x1_0000 * q;
    SameLowByte(word, word - 0x1_0000 * q, 0x100 * q);
  }

  lemma SameLowByte(a: int, b: int, k: int)
    requires a == b + 0x100 * k
    ensures a % 0x100 == b % 0x100
  {
    assert a == 0x100 * (b / 0x100 + k) + b % 0x100;
  }

  /** Where an event says it is: by the view of its kind. */
  function Position(kind: Kind, d: Data): (int, int) {
    if kind == MouseWheel then (WheelX(d), WheelY(d)) else (d.x, d.y)
  }

  predicate IsMouse(k: Kind) {
    k == MousePressed || k == MouseReleased || k == MouseWheel || k == MouseMoved || k == MouseDragged
  }

  /** Posting divides by zero: a mouse event while the screen size cannot be read. */
  predicate DividesByZero(k: Kind, s: Screen) {
    IsMouse(k) && (s.width == 0 || s.height == 0)
  }

  const VK_UP := 0x26

  /** Up, Down, Left, Right, Home, End, Prior, Next, Insert, Delete. */
  const EXTENDED_KEYS := [VK_UP, 0x28, 0x25, 0x27, 0x24, 0x23, 0x21, 0x22, 0x2D, 0x2E]

  /** The extended-key loop of map_keyboard_event. Its condition on the Shift bits is
      always true, since the mask's definition is not in parentheses; and it goes on only
      while the key equals the next table entry, so that of the ten keys listed only the
      first is flagged. */
  method FlagExtended(vk: nat) returns (extended: bool)
    ensures extended <==> vk == 0x26
  {
    extended := false;
    var i := 0;
    while i < |EXTENDED_KEYS| && vk == EXTENDED_KEYS[i]
      invariant 0 <= i <= |EXTENDED_KEYS|
      invariant i == 0 ==> !extended
      invariant i > 0 ==> extended && vk == VK_UP
    {
      extended := true;
      i := i + 1;
    }
  }

  function XData(button: nat): int {
    if button == MOUSE_BUTTON4 then XBUTTON1 else if button == MOUSE_BUTTON5 then XBUTTON2 else button - 3
  }

  function ButtonFlags(button: nat, down: bool): Flags {
    if button == MOUSE_BUTTON1 then (if down then LeftDown else LeftUp)
    else if button == MOUSE_BUTTON2 then (if down then RightDown else RightUp)
    else if button == MOUSE_BUTTON3 then (if down then MiddleDown else MiddleUp)
    else if down then XDown else XUp
  }

  /** The meaning of posting: the inputs an event stands for. A press or release of a
      button is a move to its position and then the button; without a button it is nothing. */
  function Inputs(kind: Kind, d: Data, s: Screen): seq<Input>
    requires !DividesByZero(kind, s)
  {
    match kind
    case MouseMoved => [MoveInput(d, s)]
    case MouseDragged => [MoveInput(d, s)]
    case MouseWheel =>
      var move := MoveInput(d, s);
      [move.(flags := Roll, mouseData := ToUInt32(d.amount * d.rotation * WHEEL_DELTA))]
    case MousePressed => ButtonInputs(d, s, true)
    case MouseReleased => ButtonInputs(d, s, false)
    case KeyPressed => if d.vk == 0 then [] else [KeyInput(d.vk, false, d.vk == VK_UP)]
    case KeyReleased => if d.vk == 0 then [] else [KeyInput(d.vk, true, d.vk == VK_UP)]
    case _ => []
  }

  function MoveInput(d: Data, s: Screen): (i: Input)
    requires s.width > 0 && s.height > 0
    ensures i.MouseInput?
  {
    MouseInput(Absolute, Scale(d.x, s.width), Scale(d.y, s.height), 0)
  }

  function ButtonInputs(d: Data, s: Screen, down: bool): seq<Input>
    requires s.width > 0 && s.height > 0
  {
    if d.button == MOUSE_NOBUTTON then []
    else [MoveInput(d, s),
          MoveInput(d, s).(flags := ButtonFlags(d.button, down),
                           mouseData := if d.button <= 3 then 0 else XData(d.button))]
  }

  /** The kind a posted event is left with: a posted release is left a press. */
  function KindAfter(kind: Kind, d: Data): Kind {
    if kind == MouseReleased && d.button != MOUSE_NOBUTTON then MousePressed else kind
  }

  /** The caller's event record. */
  class PostedEvent {
    var kind: Kind
    const data: Data

    constructor (kind: Kind, data: Data)
      ensures this.kind == kind && this.data == data
    {
      this.kind := kind;
      this.data := data;
    }
  }

  /** The calls of hook_post_event still to come below one for this kind. */
  ghost function Depth(k: Kind): nat {
    if k == MousePressed || k == MouseReleased then 1 else 0
  }

  class Poster {
    const screen: Screen
    var sent: seq<Input>

    constructor (screen: Screen)
      ensures this.screen == screen && sent == []
    {
      this.screen := screen;
      sent := [];
    }

    /** map_mouse_event: fills the input record, posting the move of a button event on
        the way. The ghost depth bounds the calls of hook_post_event still to come. */
    method MapMouseEvent(event: PostedEvent, ghost depth: nat) returns (input: Input, success: bool)
      requires IsMouse(event.kind) && screen.width > 0 && screen.height > 0
      requires depth == Depth(event.kind)
      modifies this`sent, event`kind
      ensures event.kind == KindAfter(old(event.kind), event.data)
      ensures sent + (if success then [input] else []) == old(sent) + Inputs(old(event.kind), event.data, screen)
      decreases depth, 0
    {
      var d := event.data;
      input := MouseInput(Absolute, Scale(d.x, screen.width), Scale(d.y, screen.height), 0);
      success := false;
      match event.kind {
        case MousePressed =>
          if d.button == MOUSE_NOBUTTON {
            return;
          } else if d.button == MOUSE_BUTTON1 {
            input := input.(flags := LeftDown);
          } else if d.button == MOUSE_BUTTON2 {
            input := input.(flags := RightDown);
          } else if d.button == MOUSE_BUTTON3 {
            input := input.(flags := MiddleDown);
          } else {
            input := input.(flags := XDown, mouseData := XData(d.button));
          }
          event.kind := MouseMoved;
          var _ := HookPostEvent(event, depth - 1);
          event.kind := MousePressed;
        case MouseReleased =>
          if d.button == MOUSE_NOBUTTON {
            return;
          } else if d.button == MOUSE_BUTTON1 {
            input := input.(flags := LeftUp);
          } else if d.button == MOUSE_BUTTON2 {
            input := input.(flags := RightUp);
          } else if d.button == MOUSE_BUTTON3 {
            input := input.(flags := MiddleUp);
          } else {
            input := input.(flags := XUp, mouseData := XData(d.button));
          }
          event.kind := MouseMoved;
          var _ := HookPostEvent(event, depth - 1);
          event.kind := MousePressed;
        case MouseWheel =>
          input := input.(flags := Roll, mouseData := ToUInt32(d.amount * d.rotation * WHEEL_DELTA));
        case MouseDragged =>
        case MouseMoved =>
      }
      success := true;
    }

    /** map_keyboard_event. */
    method MapKeyboardEvent(event: PostedEvent) returns (input: Input, success: bool)
      requires event.kind == KeyPressed || event.kind == KeyReleased
      ensures (if success then [input] else []) == Inputs(event.kind, event.data, screen)
    {
      var vk := event.data.vk;
      var extended := FlagExtended(vk);
      input := KeyInput(vk, event.kind == KeyReleased, extended);
      success := vk != 0;
    }

    /** hook_post_event: not ok where the source divides by a screen size of zero. The
        ghost depth shows that the recursion is at most two deep. */
    method HookPostEvent(event: PostedEvent, ghost depth: nat) returns (ok: bool)
      requires depth == Depth(event.kind)
      modifies this`sent, event`kind
      ensures ok <==> !DividesByZero(old(event.kind), screen)
      ensures ok ==> event.kind == KindAfter(old(event.kind), event.data)
      ensures ok ==> sent == old(sent) + Inputs(old(event.kind), event.data, screen)
      ensures !ok ==> event.kind == old(event.kind) && sent == old(sent)
      decreases depth, 1
    {
      ok := true;
      match event.kind {
        case KeyPressed | KeyReleased =>
          var input, success := MapKeyboardEvent(event);
          if success {
            sent := sent + [input];
          }
        case MousePressed | MouseReleased | MouseWheel | MouseMoved | MouseDragged =>
          if screen.width == 0 || screen.height == 0 {
            ok := false;
            return;
          }
          var input, success := MapMouseEvent(event, depth);
          if success {
            sent := sent + [input];
          }
        case _ =>
      }
    }

    /** Posting a sequence of new events, one after the other. */
    method PostAll(events: seq<(Kind, Data)>) returns (ok: bool)
      modifies this`sent
      ensures ok <==> NoneDivides(events, screen)
      ensures ok ==> sent == old(sent) + AllInputs(events, screen)
    {
      ok := true;
      for i := 0 to |events|
        invariant ok && NoneDivides(events[..i], screen)
        invariant sent == old(sent) + AllInputs(events[..i], screen)
      {
        var (kind, data) := events[i];
        var event := new PostedEvent(kind, data);
        PrefixInputs(events, i, screen);
        ok := HookPostEvent(event, Depth(kind));
        if !ok {
          return;
        }
      }
      assert events[..|events|] == events;
    }
  }

  ghost predicate NoneDivides(events: seq<(Kind, Data)>, s: Screen) {
    forall i :: 0 <= i < |events| ==> !DividesByZero(events[i].0, s)
  }

  /** Everything a sequence of events sends. */
  ghost function AllInputs(events: seq<(Kind, Data)>, s: Screen): seq<Input>
    requires NoneDivides(events, s)
  {
    if events == [] then []
    else AllInputs(events[..|events| - 1], s) + Inputs(events[|events| - 1].0, events[|events| - 1].1, s)
  }

  lemma PrefixInputs(events: seq<(Kind, Data)>, i: nat, s: Screen)
    requires i < |events| && NoneDivides(events[..i], s)
    ensures DividesByZero(events[i].0, s) ==> !NoneDivides(events, s)
    ensures !DividesByZero(events[i].0, s) ==>
              NoneDivides(events[..i + 1], s) &&
              AllInputs(events[..i + 1], s) == AllInputs(events[..i], s) + Inputs(events[i].0, events[i].1, s)
  {
    assert events[..i + 1] == events[..i] + [events[i]];
  }

  predicate IsButton(i: Input) {
    i.MouseInput? && i.flags != Absolute && i.flags != Roll
  }

  /** Whatever is posted, every button input sent comes directly after the move to its
      own position. */
  lemma {:induction false} ButtonsFollowMoves(events: seq<(Kind, Data)>, s: Screen, i: nat)
    requires NoneDivides(events, s) && i < |AllInputs(events, s)|
    requires IsButton(AllInputs(events, s)[i])
    ensures i > 0
    ensures var (move, button) := (AllInputs(events, s)[i - 1], AllInputs(events, s)[i]);
            move == MouseInput(Absolute, button.dx, button.dy, 0)
  {
    var before := AllInputs(events[..|events| - 1], s);
    if i < |before| {
      ButtonsFollowMoves(events[..|events| - 1], s, i);
    } else {
      var (kind, d) := events[|events| - 1];
      assert AllInputs(events, s)[i] == Inputs(kind, d, s)[i - |before|];
      assert kind == MousePressed || kind == MouseReleased;
      assert i - |before| == 1;
    }
  }

  /** Where the absolute coordinates of an input stand for on a screen. */
  function At(input: Input, s: Screen): (int, int)
    requires input.MouseInput?
  {
    (Quot(input.dx * s.width, MAX_WINDOWS_COORD_VALUE), Quot(input.dy * s.height, MAX_WINDOWS_COORD_VALUE))
  }

  /** Every mouse input posted for an event stands for its position by the mouse view. That
      is the event's own position exactly if the event is no wheel turn, or one whose x, y
      and word of the type are all equal. */
  lemma PostedAtPosition(kind: Kind, d: Data, s: Screen, input: Input)
    requires 1 <= s.width <= 65535 && 1 <= s.height <= 65535
    requires input in Inputs(kind, d, s) && input.MouseInput?
    ensures At(input, s) == (d.x, d.y)
    ensures At(input, s) == Position(kind, d) <==> (kind == MouseWheel ==> WheelX(d) == WheelY(d) == d.y)
  {
    assert input.dx == Scale(d.x, s.width) && input.dy == Scale(d.y, s.height);
    ScaleRecovers(d.x, s.width);
    ScaleRecovers(d.y, s.height);
  }

  /** A posted wheel turn carries its y and its type for a position. */
  lemma WheelMisplaced(x: int, y: int, scroll: nat, amount: nat, rotation: int, s: Screen)
    requires IsInt16(x) && IsInt16(y) && scroll < 0x100
    requires 1 <= s.width <= 65535 && 1 <= s.height <= 65535
    ensures var d := WheelEvent(x, y, scroll, 0, amount, rotation);
            var inputs := Inputs(MouseWheel, d, s);
            && |inputs| == 1 && inputs[0].MouseInput? && At(inputs[0], s) == (y, scroll)
            && Position(MouseWheel, d) == (x, y)
  {
    var d := WheelEvent(x, y, scroll, 0, amount, rotation);
    WheelViews(x, y, scroll, 0, amount, rotation);
    PostedAtPosition(MouseWheel, d, s, Inputs(MouseWheel, d, s)[0]);
  }

  /** What Windows does on an input: it moves to a point, turns the wheel, or puts a button
      or key down or up. */
  datatype Act =
    | MoveTo(x: int, y: int)
    | Turn(amount: int)
    | PutButton(number: nat, down: bool)
    | PutKey(vk: nat, down: bool)

  function Meaning(input: Input, s: Screen): Act {
    match input
    case KeyInput(vk, up, _) => PutKey(vk, !up)
    case MouseInput(flags, _, _, mouseData) =>
      match flags
      case Absolute => MoveTo(At(input, s).0, At(input, s).1)
      case Roll => Turn(ToInt32(mouseData))
      case LeftDown => PutButton(1, true)
      case LeftUp => PutButton(1, false)
      case RightDown => PutButton(2, true)
      case RightUp => PutButton(2, false)
      case MiddleDown => PutButton(3, true)
      case MiddleUp => PutButton(3, false)
      case XDown => PutButton(if mouseData >= 0 then mouseData + 3 else 0, true)
      case XUp => PutButton(if mouseData >= 0 then mouseData + 3 else 0, false)
  }

  function Meanings(inputs: seq<Input>, s: Screen): seq<Act> {
    seq(|inputs|, i requires 0 <= i < |inputs| => Meaning(inputs[i], s))
  }

  /** What the event asks for: a button is put down or up at the event's position. */
  function Asked(kind: Kind, d: Data): seq<Act> {
    match kind
    case MouseMoved | MouseDragged => [MoveTo(d.x, d.y)]
    case MousePressed => if d.button == 0 then [] else [MoveTo(d.x, d.y), PutButton(d.button, true)]
    case MouseReleased => if d.button == 0 then [] else [MoveTo(d.x, d.y), PutButton(d.button, false)]
    case MouseWheel => [Turn(120 * d.amount * d.rotation)]
    case KeyPressed => if d.vk == 0 then [] else [PutKey(d.vk, true)]
    case KeyReleased => if d.vk == 0 then [] else [PutKey(d.vk, false)]
    case _ => []
  }

  /** Posting an event makes Windows do what the event asks for, exactly if it is no wheel
      turn whose amount overflows 32 bits. */
  lemma PostedAsAsked(kind: Kind, d: Data, s: Screen)
    requires 1 <= s.width <= 65535 && 1 <= s.height <= 65535
    ensures Meanings(Inputs(kind, d, s), s) == Asked(kind, d) <==>
              (kind == MouseWheel ==> -0x8000_0000 <= 120 * d.amount * d.rotation < 0x8000_0000)
  {
    var inputs := Inputs(kind, d, s);
    if kind == MouseWheel {
      var turn := d.amount * d.rotation * WHEEL_DELTA;
      assert turn == 120 * d.amount * d.rotation;
      SignedWide(turn);
      assert Meanings(inputs, s)[0] == Turn(ToInt32(ToUInt32(turn)));
    } else {
      forall i | 0 <= i < |inputs| && inputs[i].MouseInput? ensures At(inputs[i], s) == (d.x, d.y) {
        PostedAtPosition(kind, d, s, inputs[i]);
      }
      assert Meanings(inputs, s) == Asked(kind, d);
    }
  }

  /** The rest of the input records: mouse data only for extra buttons and the wheel, and the
      extended flag only for Up. */
  lemma PostedData(kind: Kind, d: Data, s: Screen, input: Input)
    requires !DividesByZero(kind, s) && input in Inputs(kind, d, s)
    ensures input.MouseInput? && input.flags !in {XDown, XUp, Roll} ==> input.mouseData == 0
    ensures input.KeyInput? ==> (input.extended <==> input.vk == 0x26)
  {}

  lemma SignedWide(x: int)
    ensures ToInt32(ToUInt32(x)) == x <==> -0x8000_0000 <= x < 0x8000_0000
  {
    var k := x / 0x1_0000_0000;
    assert ToUInt32(x) == x - 0x1_0000_0000 * k;
  }

  /** No two button events are posted alike: the button input tells which button, and
      whether it went down or up. */
  lemma ButtonInputsDistinct(d: Data, e: Data, s: Screen, down: bool, down': bool)
    requires s.width > 0 && s.height > 0 && d.button != MOUSE_NOBUTTON && e.button != MOUSE_NOBUTTON
    requires var (i, j) := (ButtonInputs(d, s, down)[1], ButtonInputs(e, s, down')[1]);
             i.MouseInput? && j.MouseInput? && i.flags == j.flags && i.mouseData == j.mouseData
    ensures d.button == e.button && down == down'
  {}

  /** Posting restores the caller's event unless it is a release with a button; such an
      event, posted again, sends a press. */
  lemma RepostedRelease(kind: Kind, d: Data, s: Screen)
    requires s.width > 0 && s.height > 0
    ensures KindAfter(kind, d) == kind <==> !(kind == MouseReleased && d.button != MOUSE_NOBUTTON)
    ensures kind == MouseReleased && d.button != MOUSE_NOBUTTON ==>
              Inputs(KindAfter(kind, d), d, s) == Inputs(MousePressed, d, s) != Inputs(kind, d, s)
  {
    if kind == MouseReleased && d.button != MOUSE_NOBUTTON {
      assert Inputs(kind, d, s)[1] != Inputs(MousePressed, d, s)[1];
    }
  }
}
