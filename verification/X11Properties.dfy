/** What every run of the X11 translator guarantees, in terms of its whole history. */
module X11Properties {
  import opened Options
  import opened CArithmetic
  import opened Events
  import opened Histories
  import opened X11Hook
  import C = ClickHistory
  import Utf16

  /** What the last native event of a history dispatches. */
  function LastEmitted(cfg: Config, h: seq<Native>): seq<Dispatched>
    requires h != []
  {
    Emitted(cfg, StateOf(cfg, Before(h)), TraceOf(cfg, Before(h)), Last(h))
  }

  // ---------- Modifier mask ----------

  /** The scancode of the modifier key of a flag. */
  function KeyOf(f: Flag): Option<nat> {
    match f
    case ShiftL => Some(0x002A)
    case ShiftR => Some(0x0036)
    case CtrlL => Some(0x001D)
    case CtrlR => Some(0x0E1D)
    case AltL => Some(0x0038)
    case AltR => Some(0x0E38)
    case MetaL => Some(0x0E5B)
    case MetaR => Some(0x0E5C)
    case _ => None
  }

  /** The logical buttons of a flag: none drives Button4, and both extra buttons drive Button5. */
  function ButtonsOf(f: Flag): set<nat> {
    match f
    case Button1 => {1}
    case Button2 => {2}
    case Button3 => {3}
    case Button5 => {8, 9}
    case _ => {}
  }

  function Logical(n: Native): nat
    requires n.ButtonPress? || n.ButtonRelease?
  {
    MapLookup(n.detail, n.pointerMap)
  }

  /** The flag is a lock whose LED was read and found in the given state. */
  predicate Lit(f: Flag, leds: Option<Leds>, on: bool) {
    match leds
    case None => false
    case Some(l) =>
      (f == NumLock && l.num == on) || (f == CapsLock && l.caps == on) || (f == ScrollLock && l.scroll == on)
  }

  /** The native event presses what the flag stands for. */
  predicate Presses(f: Flag, n: Native) {
    match n
    case KeyPress(_, scancode, _, _, leds) => KeyOf(f) == Some(scancode) || Lit(f, leds, true)
    case KeyRelease(_, _, _, leds) => Lit(f, leds, true)
    case ButtonPress(_, _, _, _, _) => Logical(n) in ButtonsOf(f)
    case _ => false
  }

  predicate Releases(f: Flag, n: Native) {
    match n
    case KeyPress(_, _, _, _, leds) => Lit(f, leds, false)
    case KeyRelease(_, scancode, _, leds) => KeyOf(f) == Some(scancode) || Lit(f, leds, false)
    case ButtonRelease(_, _, _, _, _) => Logical(n) in ButtonsOf(f)
    case _ => false
  }

  /** Whether the latest press or release of a flag's key, button or LED in the
      history was a press; its starting value if there was none. */
  predicate Held(start: Mask, h: seq<Native>, f: Flag) {
    if h == [] then f in start
    else if Presses(f, Last(h)) then true
    else if Releases(f, Last(h)) then false
    else Held(start, Before(h), f)
  }

  lemma LocksStep(mask: Mask, leds: Option<Leds>, f: Flag)
    ensures f in Locks(mask, leds) <==> Lit(f, leds, true) || (f in mask && !Lit(f, leds, false))
  {}

  lemma BitsOfKey(scancode: nat, f: Flag)
    ensures f in KeyBits(scancode) <==> KeyOf(f) == Some(scancode)
  {}

  lemma BitsOfButton(logical: nat, f: Flag)
    ensures f in ButtonBits(logical) <==> logical in ButtonsOf(f)
  {}

  lemma MaskStep(mask: Mask, n: Native, f: Flag)
    ensures f in MaskAfter(mask, n) <==> Presses(f, n) || (f in mask && !Releases(f, n))
  {
    match n {
      case KeyPress(_, scancode, _, _, leds) =>
        BitsOfKey(scancode, f);
        LocksStep(mask + KeyBits(scancode), leds, f);
      case KeyRelease(_, scancode, _, leds) =>
        BitsOfKey(scancode, f);
        LocksStep(mask - KeyBits(scancode), leds, f);
      case ButtonPress(_, _, _, _, _) => BitsOfButton(Logical(n), f);
      case ButtonRelease(_, _, _, _, _) => BitsOfButton(Logical(n), f);
      case _ =>
    }
  }

  /** Every bit of the mask is the latest press or release of what it stands for. */
  lemma {:induction false} MaskIsHistory(cfg: Config, h: seq<Native>, f: Flag)
    ensures f in StateOf(cfg, h).mask <==> Held(cfg.start, h, f)
  {
    if h != [] {
      MaskIsHistory(cfg, Before(h), f);
      MaskStep(StateOf(cfg, Before(h)).mask, Last(h), f);
    }
  }

  /** Every event dispatched for a native event carries its 32-bit time and, except for the
      start and stop events, the mask of the history including it. */
  lemma EmittedStamp(cfg: Config, h: seq<Native>, d: Dispatched)
    requires h != [] && d in LastEmitted(cfg, h)
    ensures d.event.time == ToUInt32(Last(h).time)
    ensures Last(h).StartOfData? || Last(h).EndOfData? ==> d.event.mask == {}
    ensures !Last(h).StartOfData? && !Last(h).EndOfData? ==>
              forall f :: f in d.event.mask <==> Held(cfg.start, h, f)
  {
    var n := Last(h);
    var s := StateOf(cfg, Before(h));
    assert StateOf(cfg, h) == After(s, n, cfg.limit);
    EmittedShape(cfg, s, TraceOf(cfg, Before(h)), n);
    forall f ensures f in StateOf(cfg, h).mask <==> Held(cfg.start, h, f) {
      MaskIsHistory(cfg, h, f);
    }
  }

  /** The button reported for a physical button when there is no pointer map: X11 numbers
      the middle and the right button the other way round. */
  function Reported(detail: nat): nat {
    match detail
    case 1 => 1
    case 2 => 3
    case 3 => 2
    case 8 => 4
    case 9 => 5
    case _ => 0
  }

  /** The mask bit of a physical button when there is no pointer map. */
  function BitOf(detail: nat): Mask {
    match detail
    case 1 => {Button1}
    case 2 => {Button3}
    case 3 => {Button2}
    case 8 => {Button5}
    case 9 => {Button5}
    case _ => {}
  }

  /** Without a pointer map, the physical buttons 4 to 7 are the wheel; every other button is
      reported, pressed or released, under its number and with its bit set or cleared. */
  lemma UnmappedButton(cfg: Config, s: State, trace: seq<Dispatched>, n: Native)
    requires (n.ButtonPress? || n.ButtonRelease?) && n.pointerMap == None
    ensures var out := Emitted(cfg, s, trace, n);
            && After(s, n, cfg.limit).mask
               == (if n.ButtonPress? then s.mask + BitOf(n.detail) else s.mask - BitOf(n.detail))
            && (4 <= n.detail <= 7 ==>
                  if n.ButtonPress? then |out| == 1 && out[0].event.kind == MouseWheel else out == [])
            && (!(4 <= n.detail <= 7) ==>
                  && out != [] && out[0].event.kind == (if n.ButtonPress? then MousePressed else MouseReleased)
                  && out[0].event.data.Mouse? && out[0].event.data.button == Reported(n.detail))
  {}

  /** A physical button acts as the one the pointer map names, if it names one, does without
      a map; a wheel turn is still reported by its physical button. */
  lemma MappedButton(cfg: Config, s: State, trace: seq<Dispatched>, n: Native)
    requires n.ButtonPress? || n.ButtonRelease?
    ensures var named := if n.pointerMap.Some? && 1 <= n.detail <= |n.pointerMap.value|
                         then n.pointerMap.value[n.detail - 1] else n.detail;
            var m := n.(detail := named, pointerMap := None);
            && After(s, n, cfg.limit) == After(s, m, cfg.limit)
            && |Emitted(cfg, s, trace, n)| == |Emitted(cfg, s, trace, m)|
            && (!(4 <= named <= 7) ==> Emitted(cfg, s, trace, n) == Emitted(cfg, s, trace, m))
  {}

  /** A pointer map under which no two physical buttons act as one. */
  ghost predicate Injective(pointerMap: Option<seq<nat>>) {
    forall d, e :: MapLookup(d, pointerMap) == MapLookup(e, pointerMap) ==> d == e
  }

  /** Whether the latest press or release of one physical button was a press. */
  predicate HeldDown(init: bool, h: seq<Native>, detail: nat) {
    if h == [] then init
    else if Last(h).ButtonPress? && Last(h).detail == detail then true
    else if Last(h).ButtonRelease? && Last(h).detail == detail then false
    else HeldDown(init, Before(h), detail)
  }

  /** Under a constant injective pointer map, a physical button that acts as logical
      button 1, 2 or 3 owns that bit: it is set exactly while that button is down. */
  lemma {:induction false} PhysicalButton(cfg: Config, h: seq<Native>, pointerMap: Option<seq<nat>>, detail: nat,
                                          f: Flag)
    requires Injective(pointerMap)
    requires forall n <- h :: n.ButtonPress? || n.ButtonRelease? ==> n.pointerMap == pointerMap
    requires ButtonsOf(f) == {MapLookup(detail, pointerMap)}
    ensures f in StateOf(cfg, h).mask <==> HeldDown(f in cfg.start, h, detail)
  {
    if h != [] {
      PhysicalButton(cfg, Before(h), pointerMap, detail, f);
      assert Last(h) in h;
      MaskStep(StateOf(cfg, Before(h)).mask, Last(h), f);
    }
  }

  /** The two extra buttons share one bit: releasing one clears it while the other is down. */
  lemma ExtraButtonsShareBit(cfg: Config)
    ensures var h := [ButtonPress(1, 8, None, 0, 0), ButtonPress(2, 9, None, 0, 0), ButtonRelease(3, 9, None, 0, 0)];
            HeldDown(false, h, 8) && Button5 !in StateOf(cfg, h).mask
  {
    var h := [ButtonPress(1, 8, None, 0, 0), ButtonPress(2, 9, None, 0, 0), ButtonRelease(3, 9, None, 0, 0)];
    assert Before(h) == [ButtonPress(1, 8, None, 0, 0), ButtonPress(2, 9, None, 0, 0)];
    assert Before(Before(h)) == [ButtonPress(1, 8, None, 0, 0)];
    MaskIsHistory(cfg, h, Button5);
  }

  /** Which of two physical buttons was pressed or released last. */
  function LastActed(h: seq<Native>, a: nat, b: nat): Option<nat> {
    if h == [] then None
    else if (Last(h).ButtonPress? || Last(h).ButtonRelease?) && (Last(h).detail == a || Last(h).detail == b)
    then Some(Last(h).detail)
    else LastActed(Before(h), a, b)
  }

  /** The shared bit is the state of whichever extra button was acted on last, and the
      starting value if neither was. */
  lemma {:induction false} SharedBit(cfg: Config, h: seq<Native>, pointerMap: Option<seq<nat>>, a: nat, b: nat)
    requires Injective(pointerMap)
    requires forall n <- h :: n.ButtonPress? || n.ButtonRelease? ==> n.pointerMap == pointerMap
    requires MapLookup(a, pointerMap) == X_BUTTON1 && MapLookup(b, pointerMap) == X_BUTTON2
    ensures var start := Button5 in cfg.start;
            Button5 in StateOf(cfg, h).mask <==>
              match LastActed(h, a, b) case None => start case Some(d) => HeldDown(start, h, d)
  {
    if h != [] {
      SharedBit(cfg, Before(h), pointerMap, a, b);
      assert Last(h) in h;
      MaskStep(StateOf(cfg, Before(h)).mask, Last(h), Button5);
      ActedMembers(Before(h), a, b);
    }
  }

  lemma {:induction false} ActedMembers(h: seq<Native>, a: nat, b: nat)
    ensures LastActed(h, a, b).Some? ==> LastActed(h, a, b).value == a || LastActed(h, a, b).value == b
    ensures LastActed(h, a, b).None? ==> forall init :: HeldDown(init, h, a) == init
  {
    if h != [] {
      ActedMembers(Before(h), a, b);
    }
  }

  /** The shared bit tells the truth about one extra button exactly if the other was not
      the last one acted on, or both are in the same state. */
  lemma SharedBitTruth(cfg: Config, h: seq<Native>, pointerMap: Option<seq<nat>>, a: nat, b: nat)
    requires Injective(pointerMap)
    requires forall n <- h :: n.ButtonPress? || n.ButtonRelease? ==> n.pointerMap == pointerMap
    requires MapLookup(a, pointerMap) == X_BUTTON1 && MapLookup(b, pointerMap) == X_BUTTON2
    ensures var start := Button5 in cfg.start;
            (Button5 in StateOf(cfg, h).mask <==> HeldDown(start, h, a)) <==>
              LastActed(h, a, b) != Some(b) || HeldDown(start, h, a) == HeldDown(start, h, b)
    ensures var start := Button5 in cfg.start;
            (Button5 in StateOf(cfg, h).mask <==> HeldDown(start, h, b)) <==>
              LastActed(h, a, b) != Some(a) || HeldDown(start, h, a) == HeldDown(start, h, b)
  {
    SharedBit(cfg, h, pointerMap, a, b);
    ActedMembers(h, a, b);
    ActedMembers(h, b, a);
    ActedSwaps(h, a, b);
  }

  lemma {:induction false} ActedSwaps(h: seq<Native>, a: nat, b: nat)
    ensures LastActed(h, a, b) == LastActed(h, b, a)
  {
    if h != [] {
      ActedSwaps(Before(h), a, b);
    }
  }

  /** The scancodes of the keypad digits 7 to 9, 4 to 6, 1 to 3 and 0, and its separator. */
  const KEYPAD: set<nat> := {0x47, 0x48, 0x49, 0x4B, 0x4C, 0x4D, 0x4F, 0x50, 0x51, 0x52, 0x53}

  /** A key press or release reports its scancode, marked with 0xEE00 exactly for the
      keypad keys while the latest reading of the LEDs has Num Lock off. */
  lemma KeyReport(cfg: Config, h: seq<Native>)
    requires h != [] && (Last(h).KeyPress? || Last(h).KeyRelease?)
    ensures var out := LastEmitted(cfg, h);
            && |out| == 1 + (if Last(h).KeyPress? && !out[0].Consumed() then |Text(Last(h).code)| else 0)
            && out[0].event.kind == (if Last(h).KeyPress? then KeyPressed else KeyReleased)
            && out[0].event.data.Keyboard?
            && out[0].event.data.keycode
            == Last(h).scancode + (if Last(h).scancode in KEYPAD && !Held(cfg.start, h, NumLock) then 0xEE00 else 0)
            && out[0].event.data.rawcode == Last(h).keysym % 0x1_0000
            && out[0].event.data.keychar == CHAR_UNDEFINED
  {
    MaskIsHistory(cfg, h, NumLock);
    var n := Last(h);
    if n.KeyPress? {
      var s, d := StateOf(cfg, Before(h)), LastEmitted(cfg, h)[0];
      TypedShape(cfg.client, TraceOf(cfg, Before(h)) + [d], ToUInt32(n.time), After(s, n, cfg.limit).mask,
                 n.keysym % 0x1_0000, Text(n.code));
    }
  }

  // ---------- Output grammar ----------

  predicate IsTyped(d: Dispatched) { d.event.kind == KeyTyped }
  predicate IsClicked(d: Dispatched) { d.event.kind == MouseClicked }

  /** d is a KEY_TYPED event that may directly follow p. */
  predicate TypedAfter(p: Dispatched, d: Dispatched) {
    && p.event.kind == KeyPressed && !p.Consumed()
    && p.event.data.Keyboard? && d.event.data.Keyboard?
    && d.event.time == p.event.time && d.event.mask == p.event.mask
    && d.event.data.rawcode == p.event.data.rawcode
    && d.event.data.keycode == VC_UNDEFINED
  }

  /** d is the MOUSE_CLICKED event of the release p. */
  predicate ClickedAfter(p: Dispatched, d: Dispatched) {
    p.event.kind == MouseReleased && !p.Consumed() && d.event == p.event.(kind := MouseClicked)
  }

  /** The grammar of a trace: a KEY_TYPED event comes directly, or as the second,
      after an unconsumed KEY_PRESSED; a MOUSE_CLICKED event directly after an
      unconsumed MOUSE_RELEASED, carrying the same button, count and position. */
  ghost predicate Grammatical(t: seq<Dispatched>) {
    forall i :: 0 <= i < |t| ==> Placed(t, i)
  }

  predicate Placed(t: seq<Dispatched>, i: nat)
    requires i < |t|
  {
    && (IsTyped(t[i]) ==>
          || (i >= 1 && TypedAfter(t[i - 1], t[i]))
          || (i >= 2 && IsTyped(t[i - 1]) && TypedAfter(t[i - 2], t[i])))
    && (IsClicked(t[i]) ==> i >= 1 && ClickedAfter(t[i - 1], t[i]))
  }

  lemma TextShort(code: Option<nat>)
    ensures |Text(code)| <= 2
  {}

  /** One native event dispatches a grammatical piece, all at its time and mask. */
  lemma EmittedShape(cfg: Config, s: State, trace: seq<Dispatched>, n: Native)
    ensures var out := Emitted(cfg, s, trace, n);
            var mask := if n.StartOfData? || n.EndOfData? then {} else After(s, n, cfg.limit).mask;
            && Grammatical(out)
            && forall d <- out :: d.event.time == ToUInt32(n.time) && d.event.mask == mask
  {
    if n.KeyPress? {
      TextShort(n.code);
      var after := After(s, n, cfg.limit);
      var data := Keyboard(ReportedKeycode(n.scancode, after.mask), n.keysym % 0x1_0000, CHAR_UNDEFINED);
      var d := Send(cfg.client, trace, Event(KeyPressed, ToUInt32(n.time), after.mask, data));
      TypedShape(cfg.client, trace + [d], ToUInt32(n.time), after.mask, n.keysym % 0x1_0000, Text(n.code));
    }
  }

  lemma GrammaticalConcat(a: seq<Dispatched>, b: seq<Dispatched>)
    requires Grammatical(a) && Grammatical(b)
    ensures Grammatical(a + b)
  {
    var t := a + b;
    forall i | 0 <= i < |t| ensures Placed(t, i) {
      if i < |a| {
        assert Placed(a, i);
      } else {
        assert Placed(b, i - |a|);
      }
    }
  }

  /** Every trace follows the grammar. */
  lemma {:induction false} TraceGrammatical(cfg: Config, h: seq<Native>)
    ensures Grammatical(TraceOf(cfg, h))
  {
    if h != [] {
      TraceGrammatical(cfg, Before(h));
      EmittedShape(cfg, StateOf(cfg, Before(h)), TraceOf(cfg, Before(h)), Last(h));
      GrammaticalConcat(TraceOf(cfg, Before(h)), LastEmitted(cfg, h));
    }
  }

  /** Which kinds of event a native event may lead to. */
  predicate MayReport(n: Native, k: Kind) {
    match k
    case HookEnabled => n.StartOfData?
    case HookDisabled => n.EndOfData?
    case KeyPressed | KeyTyped => n.KeyPress?
    case KeyReleased => n.KeyRelease?
    case MousePressed => n.ButtonPress? && !IsWheel(Logical(n))
    case MouseWheel => n.ButtonPress? && IsWheel(Logical(n))
    case MouseReleased | MouseClicked => n.ButtonRelease? && !IsWheel(Logical(n))
    case MouseMoved | MouseDragged => n.Motion?
  }

  predicate AtPosition(d: Data, x: int, y: int) {
    match d
    case Mouse(_, _, dx, dy) => dx == x && dy == y
    case Wheel(_, dx, dy, _, _, _, _) => dx == x && dy == y
    case _ => false
  }

  /** A native event leads to events of its own kinds only, at its own position, and to
      none exactly if it is unhandled or the release of a wheel button. */
  lemma EmittedKinds(cfg: Config, s: State, trace: seq<Dispatched>, n: Native)
    ensures var out := Emitted(cfg, s, trace, n);
            && (out == [] <==> n.Unhandled? || (n.ButtonRelease? && IsWheel(Logical(n))))
            && (n.StartOfData? || n.EndOfData? ==> |out| == 1)
            && (forall d <- out :: MayReport(n, d.event.kind))
            && (n.ButtonPress? || n.ButtonRelease? || n.Motion? ==>
                  forall d <- out :: AtPosition(d.event.data, n.x, n.y))
  {
    if n.KeyPress? {
      var after, d := After(s, n, cfg.limit), Emitted(cfg, s, trace, n)[0];
      TypedShape(cfg.client, trace + [d], ToUInt32(n.time), after.mask, n.keysym % 0x1_0000, Text(n.code));
    }
  }

  /** The rotation and direction a wheel button stands for. */
  function WheelMeaning(logical: nat): (int, nat)
    requires IsWheel(logical)
  {
    if logical == WHEEL_UP then (-1, WHEEL_VERTICAL_DIRECTION)
    else if logical == WHEEL_DOWN then (1, WHEEL_VERTICAL_DIRECTION)
    else if logical == WHEEL_LEFT then (-1, WHEEL_HORIZONTAL_DIRECTION)
    else (1, WHEEL_HORIZONTAL_DIRECTION)
  }

  /** A wheel turn is one event. It reports the physical button's meaning, or a turn to
      the right if that is no wheel button; so it is right about the logical button
      exactly if the two are the same, or the logical one is a turn to the right and the
      physical one none of the other three. */
  lemma WheelReport(cfg: Config, h: seq<Native>)
    requires h != [] && Last(h).ButtonPress? && IsWheel(Logical(Last(h)))
    ensures var (n, out) := (Last(h), LastEmitted(cfg, h));
            && |out| == 1 && out[0].event.kind == MouseWheel && out[0].event.data.Wheel?
            && var w := out[0].event.data;
            && w.wheelClicks == 1 && w.scroll == WHEEL_UNIT_SCROLL && w.amount == 3
            && (w.rotation, w.direction) == WheelMeaning(if IsWheel(n.detail) then n.detail else WHEEL_RIGHT)
            && ((w.rotation, w.direction) == WheelMeaning(Logical(n)) <==>
                  n.detail == Logical(n)
                  || (Logical(n) == WHEEL_RIGHT && n.detail !in {WHEEL_UP, WHEEL_DOWN, WHEEL_LEFT}))
  {}

  /** A pointer map that swaps the wheel buttons, for scrolling the other way, is not
      followed: the turn mapped to wheel-down is still reported up. */
  lemma SwappedWheelMisreported(cfg: Config, x: int, y: int)
    ensures var n := ButtonPress(0, WHEEL_UP, Some([1, 2, 3, 5, 4]), x, y);
            && Logical(n) == WHEEL_DOWN
            && |LastEmitted(cfg, [n])| == 1 && LastEmitted(cfg, [n])[0].event.data.Wheel?
            && LastEmitted(cfg, [n])[0].event.data.rotation == -1
  {}

  // ---------- Drags and clicks ----------

  predicate SomeButtonHeld(start: Mask, h: seq<Native>) {
    || Held(start, h, Button1) || Held(start, h, Button2) || Held(start, h, Button3)
    || Held(start, h, Button4) || Held(start, h, Button5)
  }

  /** Whether the most recent motion of the history, if any, happened with a button held. */
  predicate LastMotionHeld(start: Mask, h: seq<Native>) {
    if h == [] then false
    else if Last(h).Motion? then SomeButtonHeld(start, Before(h))
    else LastMotionHeld(start, Before(h))
  }

  lemma SomeButtonInMask(cfg: Config, h: seq<Native>)
    ensures StateOf(cfg, h).mask * BUTTON_FLAGS != {} <==> SomeButtonHeld(cfg.start, h)
  {
    var m := StateOf(cfg, h).mask;
    MaskIsHistory(cfg, h, Button1);
    MaskIsHistory(cfg, h, Button2);
    MaskIsHistory(cfg, h, Button3);
    MaskIsHistory(cfg, h, Button4);
    MaskIsHistory(cfg, h, Button5);
    if SomeButtonHeld(cfg.start, h) {
      var f :| f in BUTTON_FLAGS && f in m;
      assert f in m * BUTTON_FLAGS;
    }
  }

  lemma {:induction false} DraggedIsHistory(cfg: Config, h: seq<Native>)
    ensures StateOf(cfg, h).dragged <==> LastMotionHeld(cfg.start, h)
  {
    if h != [] {
      DraggedIsHistory(cfg, Before(h));
      SomeButtonInMask(cfg, Before(h));
    }
  }

  /** Motion is one event, a drag exactly while some button is held. */
  lemma MotionReport(cfg: Config, h: seq<Native>)
    requires h != [] && Last(h).Motion?
    ensures var out := LastEmitted(cfg, h);
            && |out| == 1
            && out[0].event.kind == (if SomeButtonHeld(cfg.start, Before(h)) then MouseDragged else MouseMoved)
            && out[0].event.data.Mouse? && out[0].event.data.button == MOUSE_NOBUTTON
            && out[0].event.data.clicks == StateOf(cfg, h).clicks.count
  {
    SomeButtonInMask(cfg, Before(h));
  }

  /** A release of a button is reported, and clicks exactly when it was not consumed
      and the most recent motion, if any, was not a drag. */
  lemma ReleaseReport(cfg: Config, h: seq<Native>)
    requires h != [] && Last(h).ButtonRelease? && !IsWheel(Logical(Last(h)))
    ensures var out := LastEmitted(cfg, h);
            && |out| >= 1 && out[0].event.kind == MouseReleased
            && out[0].event.data.Mouse? && out[0].event.data.button == ButtonNumber(Logical(Last(h)))
            && out[0].event.data.clicks == StateOf(cfg, Before(h)).clicks.count
            && (|out| == 2 <==> !out[0].Consumed() && !LastMotionHeld(cfg.start, Before(h)))
            && (|out| == 2 ==> out[1].event == out[0].event.(kind := MouseClicked))
            && |out| <= 2
  {
    DraggedIsHistory(cfg, Before(h));
  }

  // ---------- Click counts ----------

  /** The press or wheel turn of a native event, if it is one. */
  function MarksOf(n: Native): seq<C.Mark> {
    if !n.ButtonPress? then []
    else if IsWheel(Logical(n)) then [C.Turn]
    else [C.Press(ButtonNumber(Logical(n)), n.time)]
  }

  /** The presses and wheel turns of a history. */
  function Marks(h: seq<Native>): seq<C.Mark> {
    if h == [] then [] else Marks(Before(h)) + MarksOf(Last(h))
  }

  function Now(h: seq<Native>): int {
    if h == [] then 0 else Last(h).time
  }

  /** The comparison of two 32-bit times with the multi-click time tells of the true gap:
      the server's counter has not wrapped in between, or the gap is within that time
      anyway, or the recorded times are still further apart than that. */
  predicate Readable(latest: int, time: int, limit: int) {
    || latest / 0x1_0000_0000 == time / 0x1_0000_0000
    || time - latest <= limit
    || limit < ToUInt32(time) - ToUInt32(latest)
  }

  predicate Measures(n: Native) {
    n.Motion? || ((n.ButtonPress? || n.ButtonRelease?) && !IsWheel(Logical(n)))
  }

  /** Times do not decrease, and every button or motion event is readable against the
      latest press, wherever the count is followed. */
  predicate Timely(limit: int, h: seq<Native>, all: bool) {
    h != [] ==>
      && Timely(limit, Before(h), all)
      && Now(Before(h)) <= Last(h).time
      && (Measures(Last(h)) && C.Followed(Marks(Before(h)), all) ==>
            Readable(C.Latest(Marks(Before(h))), Last(h).time, limit))
  }

  /** The comparison is right exactly for the readable times. */
  lemma ElapsedCompares(c: C.Counter, marks: seq<C.Mark>, limit: int, now: int, all: bool, time: nat)
    requires C.Agrees(c, marks, limit, now, ToUInt32, all) && C.Followed(marks, all) && now <= time
    ensures (Elapsed(c, time) <= limit <==> C.Gap(marks, time) <= limit) <==> Readable(C.Latest(marks), time, limit)
  {
    hide C.Followed;
    CompareWrapped(C.Latest(marks), time);
  }

  lemma CompareWrapped(latest: int, time: int)
    requires latest <= time
    ensures var distance := ToUInt32(time) - ToUInt32(latest);
            && ToInt64(distance) == distance <= time - latest
            && (latest / 0x1_0000_0000 == time / 0x1_0000_0000 ==> distance == time - latest)
  {}

  /** One native event keeps counter and history in agreement. */
  lemma ClickStep(c: C.Counter, marks: seq<C.Mark>, limit: int, now: int, all: bool, n: Native)
    requires C.Agrees(c, marks, limit, now, ToUInt32, all) && now <= n.time
    requires Measures(n) && C.Followed(marks, all) ==> Readable(C.Latest(marks), n.time, limit)
    ensures C.Agrees(ClicksAfter(c, n, limit), marks + MarksOf(n), limit, n.time, ToUInt32, all)
    ensures n.ButtonPress? && Measures(n) && C.Followed(marks + MarksOf(n), all) ==>
              ClicksAfter(c, n, limit).count == C.Capped(C.Tally(marks + MarksOf(n), limit))
  {
    hide C.Agrees, C.Tally, C.Followed, Readable, Elapsed, MapLookup;
    if Measures(n) && C.Followed(marks, all) {
      ElapsedCompares(c, marks, limit, now, all, n.time);
    }
    if n.ButtonPress? {
      if IsWheel(Logical(n)) {
        C.WheelAgrees(c, marks, limit, now, ToUInt32, all, n.time);
      } else {
        C.PressAgrees(c, marks, limit, now, ToUInt32, all, ButtonNumber(Logical(n)), n.time,
                      Elapsed(c, n.time) <= limit);
      }
    } else {
      assert marks + MarksOf(n) == marks;
      var button := if n.ButtonRelease? then ButtonNumber(Logical(n)) else MOUSE_NOBUTTON;
      C.IdleAgrees(c, marks, limit, now, ToUInt32, all, button, n.time,
                   if Measures(n) then Elapsed(c, n.time) > limit else C.Gap(marks, n.time) > limit);
    }
  }

  lemma {:induction false} CounterAgrees(cfg: Config, h: seq<Native>, all: bool)
    requires Timely(cfg.limit, h, all)
    ensures C.Agrees(StateOf(cfg, h).clicks, Marks(h), cfg.limit, Now(h), ToUInt32, all)
    ensures h != [] && Last(h).ButtonPress? && Measures(Last(h)) && C.Followed(Marks(h), all) ==>
              StateOf(cfg, h).clicks.count == C.Capped(C.Tally(Marks(h), cfg.limit))
  {
    if h != [] {
      hide Readable, ClicksAfter;
      CounterAgrees(cfg, Before(h), all);
      ClickStep(StateOf(cfg, Before(h)).clicks, Marks(Before(h)), cfg.limit, Now(Before(h)), all, Last(h));
    }
  }

  /** The click count of a press, kept on 32-bit times, is its tally at true times, capped
      at 65535; for a numbered button that is the length of the longest chain of presses
      ending there, in spite of all the resets, and only the times after such presses need
      be readable. */
  lemma PressCount(cfg: Config, h: seq<Native>, all: bool)
    requires h != [] && Timely(cfg.limit, h, all) && Last(h).ButtonPress? && !IsWheel(Logical(Last(h)))
    ensures var out := LastEmitted(cfg, h);
            && |out| == 1 && out[0].event.kind == MousePressed && out[0].event.data.Mouse?
            && out[0].event.data.button == ButtonNumber(Logical(Last(h)))
            && (all ==> out[0].event.data.clicks == C.Capped(C.Tally(Marks(h), cfg.limit)))
            && (out[0].event.data.button != MOUSE_NOBUTTON ==>
                  out[0].event.data.clicks == C.Capped(C.Chain(Marks(h), cfg.limit)))
  {
    hide ClicksAfter, Timely, Readable, C.Agrees, C.Chain, C.Tally;
    CounterAgrees(cfg, h, all);
    if ButtonNumber(Logical(Last(h))) != MOUSE_NOBUTTON {
      C.TallyIsChain(Marks(h), cfg.limit);
    }
  }

  const BEFORE_WRAP := ButtonPress(0xFFFF_FFFF, 1, None, 0, 0)
  const AFTER_WRAP := ButtonPress(0x1_7000_0000, 1, None, 0, 0)

  lemma WrapCounted(limit: int)
    requires 0 <= limit
    ensures ClicksAfter(C.Counter(0, 0, C.NO_BUTTON), BEFORE_WRAP, limit) == C.Counter(1, 0xFFFF_FFFF, 1)
    ensures ClicksAfter(C.Counter(1, 0xFFFF_FFFF, 1), AFTER_WRAP, limit).count == 2
  {
    assert Elapsed(C.Counter(1, 0xFFFF_FFFF, 1), 0x1_7000_0000) == 0x7000_0000 - 0xFFFF_FFFF;
  }

  lemma WrapMarks()
    ensures Marks([BEFORE_WRAP, AFTER_WRAP]) == [C.Press(1, 0xFFFF_FFFF), C.Press(1, 0x1_7000_0000)]
  {
    assert Before([BEFORE_WRAP, AFTER_WRAP]) == [BEFORE_WRAP];
    assert Marks([BEFORE_WRAP]) == [C.Press(1, 0xFFFF_FFFF)];
  }

  /** Otherwise the count can be wrong: a press after the server's counter has wrapped
      counts as a double click, though the one before was long ago. */
  lemma WrapCountsDouble(cfg: Config)
    requires 0 <= cfg.limit < 0x7000_0001
    ensures var h := [BEFORE_WRAP, AFTER_WRAP];
            StateOf(cfg, h).clicks.count == 2 && C.Chain(Marks(h), cfg.limit) == 1
  {
    hide ClicksAfter, Marks;
    var h := [BEFORE_WRAP, AFTER_WRAP];
    assert h[..1] == [BEFORE_WRAP] && [BEFORE_WRAP][..0] == [];
    WrapCounted(cfg.limit);
    assert StateOf(cfg, [BEFORE_WRAP]).clicks == C.Counter(1, 0xFFFF_FFFF, 1);
    WrapMarks();
    assert Marks(h)[..1] == [C.Press(1, 0xFFFF_FFFF)];
  }

  /** Since the last press or wheel turn, a motion or a release of the compared button
      came too late for the multi-click time. */
  predicate Lapsed(limit: int, h: seq<Native>) {
    if h == [] || Last(h).ButtonPress? then false
    else Lapsed(limit, Before(h)) || (C.Gap(Marks(h), Last(h).time) > limit && EndsCount(h))
  }

  predicate EndsCount(h: seq<Native>)
    requires h != []
  {
    var n := Last(h);
    n.Motion? || (n.ButtonRelease? && !IsWheel(Logical(n)) && ButtonNumber(Logical(n)) == C.Button(Marks(h)))
  }

  /** The count that releases, clicks and motion report, after every history whose count is
      followed: the tally of the presses and wheel turns, or 0 once it has lapsed. */
  lemma {:induction false} StoredCount(cfg: Config, h: seq<Native>, all: bool)
    requires Timely(cfg.limit, h, all) && C.Followed(Marks(h), all)
    ensures StateOf(cfg, h).clicks.count
         == if Lapsed(cfg.limit, h) then 0 else C.Capped(C.Tally(Marks(h), cfg.limit))
  {
    hide C.Tally, MapLookup, Elapsed, Readable;
    if h == [] {
      assert C.Tally([], cfg.limit) == 0 by { C.TallyBasics([], cfg.limit); }
      return;
    }
    var b, n := Before(h), Last(h);
    if n.ButtonPress? {
      CounterAgrees(cfg, h, all);
      if IsWheel(Logical(n)) {
        C.TallyBasics(Marks(b), cfg.limit);
      }
    } else {
      assert Marks(h) == Marks(b);
      StoredCount(cfg, b, all);
      CounterAgrees(cfg, b, all);
      if Measures(n) {
        ElapsedCompares(StateOf(cfg, b).clicks, Marks(b), cfg.limit, Now(b), all, n.time);
      }
    }
  }

  // ---------- Typed text ----------

  /** The keychars of the KEY_TYPED events of a trace. */
  function TypedUnits(t: seq<Dispatched>): seq<nat> {
    if t == [] then []
    else
      var d := t[|t| - 1];
      TypedUnits(t[..|t| - 1]) + if IsTyped(d) && d.event.data.Keyboard? then [d.event.data.keychar] else []
  }

  /** The codes of the key presses that the client did not consume. */
  function UnconsumedCodes(cfg: Config, h: seq<Native>): seq<nat> {
    if h == [] then []
    else
      var n := Last(h);
      UnconsumedCodes(cfg, Before(h)) +
      if n.KeyPress? && n.code.Some? && |LastEmitted(cfg, h)| > 0 && !LastEmitted(cfg, h)[0].Consumed()
      then [n.code.value] else []
  }

  lemma {:induction false} TypedUnitsConcat(a: seq<Dispatched>, b: seq<Dispatched>)
    ensures TypedUnits(a + b) == TypedUnits(a) + TypedUnits(b)
  {
    if b == [] {
      assert a + b == a;
    } else {
      assert (a + b)[..|a + b| - 1] == a + b[..|b| - 1];
      TypedUnitsConcat(a, b[..|b| - 1]);
    }
  }

  lemma TypedUnitsOfShort(t: seq<Dispatched>)
    requires |t| <= 2
    ensures |t| == 1 ==> TypedUnits(t) == TypedUnits([t[0]])
    ensures |t| == 2 ==> TypedUnits(t) == TypedUnits([t[0]]) + TypedUnits([t[1]])
  {
    if |t| == 1 {
      assert t == [t[0]];
    } else if |t| == 2 {
      TypedUnitsConcat([t[0]], [t[1]]);
      assert t == [t[0]] + [t[1]];
    }
  }

  /** One native event types the UTF-16 form of its code, if it was not consumed. */
  lemma EmittedText(cfg: Config, s: State, trace: seq<Dispatched>, n: Native)
    ensures var out := Emitted(cfg, s, trace, n);
            TypedUnits(out) == (if n.KeyPress? && out != [] && !out[0].Consumed() then Text(n.code) else [])
  {
    var out := Emitted(cfg, s, trace, n);
    if n.KeyPress? {
      TextShort(n.code);
      var text := Text(n.code);
      var after := After(s, n, cfg.limit);
      var d := out[0];
      var typed := Typed(cfg.client, trace + [d], ToUInt32(n.time), after.mask, n.keysym % 0x1_0000, text);
      TypedShape(cfg.client, trace + [d], ToUInt32(n.time), after.mask, n.keysym % 0x1_0000, text);
      if !d.Consumed() {
        TypedUnitsConcat([d], typed);
        TypedUnitsOfShort(typed);
      }
    } else {
      TypedUnitsOfShort(out);
    }
  }

  lemma {:induction false} TypedIsEncoded(cfg: Config, h: seq<Native>)
    ensures TypedUnits(TraceOf(cfg, h)) == Utf16.EncodeAll(UnconsumedCodes(cfg, h))
  {
    if h != [] {
      var b, n := Before(h), Last(h);
      TypedIsEncoded(cfg, b);
      TypedUnitsConcat(TraceOf(cfg, b), LastEmitted(cfg, h));
      EmittedText(cfg, StateOf(cfg, b), TraceOf(cfg, b), n);
      if n.KeyPress? && n.code.Some? && !LastEmitted(cfg, h)[0].Consumed() {
        Utf16.EncodeAllSnoc(UnconsumedCodes(cfg, b), n.code.value);
      } else {
        assert UnconsumedCodes(cfg, h) == UnconsumedCodes(cfg, b);
      }
    }
  }

  /** The text a client receives decodes, by section 2.2 of RFC 2781, to exactly the
      scalar values among the codes of the presses it did not consume. */
  lemma TypedTextDecodes(cfg: Config, h: seq<Native>)
    ensures Utf16.Decode(TypedUnits(TraceOf(cfg, h))) == Some(Utf16.Scalars(UnconsumedCodes(cfg, h)))
  {
    TypedIsEncoded(cfg, h);
    Utf16.RoundTrip(UnconsumedCodes(cfg, h));
  }

  /** The keyboard library reports code 0 for a key without a character, and such a press,
      unless consumed, is followed by a typed U+0000. */
  lemma NulTyped(cfg: Config, h: seq<Native>)
    requires h != [] && Last(h).KeyPress? && Last(h).code == Some(0)
    ensures var out := LastEmitted(cfg, h);
            out != [] && TypedUnits(out) == if out[0].Consumed() then [] else [0]
  {
    EmittedText(cfg, StateOf(cfg, Before(h)), TraceOf(cfg, Before(h)), Last(h));
  }
}
