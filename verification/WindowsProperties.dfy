/** What every run of the Windows translator guarantees, in terms of its whole history. */
module WindowsProperties {
  import opened Options
  import opened CArithmetic
  import opened Events
  import opened Histories
  import opened WindowsHook
  import C = ClickHistory
  import W = WheelAccumulator

  /** What the last native event of a history dispatches. */
  function LastEmitted(cfg: Config, h: seq<Native>): seq<Dispatched>
    requires h != []
  {
    Emitted(cfg, StateOf(cfg, Before(h)), TraceOf(cfg, Before(h)), Last(h))
  }

  // ---------- Modifier mask ----------

  /** The virtual key of a flag. */
  function KeyOf(f: Flag): Option<nat> {
    match f
    case ShiftL => Some(0xA0)
    case ShiftR => Some(0xA1)
    case CtrlL => Some(0xA2)
    case CtrlR => Some(0xA3)
    case AltL => Some(0xA4)
    case AltR => Some(0xA5)
    case MetaL => Some(0x5B)
    case MetaR => Some(0x5C)
    case NumLock => Some(0x90)
    case CapsLock => Some(0x14)
    case ScrollLock => Some(0x91)
    case _ => None
  }

  /** The buttons of a flag. Besides the five named buttons, the extra buttons 4 and 5
      act on two keyboard flags. */
  function ButtonsOf(f: Flag): set<Button> {
    match f
    case Button1 => {Left}
    case Button2 => {Right}
    case Button3 => {Middle}
    case Button4 => {Extra(1)}
    case Button5 => {Extra(2)}
    case ShiftL => {Extra(5)}
    case MetaL => {Extra(4), Extra(5)}
    case _ => {}
  }

  predicate Presses(f: Flag, n: Native) {
    match n
    case Restart(_, down) => f in down
    case KeyDown(_, _, vk, _, _) => KeyOf(f) == Some(vk)
    case ButtonDown(_, _, b, _) => b in ButtonsOf(f)
    case _ => false
  }

  predicate Releases(f: Flag, n: Native) {
    match n
    case Restart(_, down) => f !in down
    case KeyUp(_, _, vk, _) => KeyOf(f) == Some(vk)
    case ButtonUp(_, _, b, _) => b in ButtonsOf(f)
    case _ => false
  }

  /** Whether the latest press, release or re-reading of what a flag stands for set it. */
  predicate Held(start: Mask, h: seq<Native>, f: Flag) {
    if h == [] then f in start
    else if Presses(f, Last(h)) then true
    else if Releases(f, Last(h)) then false
    else Held(start, Before(h), f)
  }

  lemma BitsOfKey(vk: nat, f: Flag)
    ensures f in KeyBits(vk) <==> KeyOf(f) == Some(vk)
  {}

  lemma BitsOfButton(b: Button, f: Flag)
    ensures f in ButtonBits(b) <==> b in ButtonsOf(f)
  {}

  lemma MaskStep(mask: Mask, n: Native, f: Flag)
    ensures f in MaskAfter(mask, n) <==> Presses(f, n) || (f in mask && !Releases(f, n))
  {
    match n {
      case KeyDown(_, _, vk, _, _) => BitsOfKey(vk, f);
      case KeyUp(_, _, vk, _) => BitsOfKey(vk, f);
      case ButtonDown(_, _, b, _) => BitsOfButton(b, f);
      case ButtonUp(_, _, b, _) => BitsOfButton(b, f);
      case _ =>
    }
  }

  /** Every bit of the mask is the latest press or release of what it stands for. */
  lemma {:induction false} MaskIsHistory(cfg: Config, h: seq<Native>, f: Flag)
    ensures f in StateOf(cfg, h).mask <==> Held(cfg.start, h, f)
  {
    if h != [] {
      MaskIsHistory(cfg, Before(h), f);
      MaskStep(StateOf(cfg, Before(h)).mask, Last(h), f);
    }
  }

  /** Every event dispatched for a hooked event carries its 32-bit time and the mask of
      the history including it; the status events carry the signed tick count and no mask. */
  lemma EmittedStamp(cfg: Config, h: seq<Native>, d: Dispatched)
    requires h != [] && d in LastEmitted(cfg, h)
    ensures IsHooked(Last(h)) ==> d.event.time == ToUInt32(Last(h).time)
    ensures IsHooked(Last(h)) ==> forall f :: f in d.event.mask <==> Held(cfg.start, h, f)
    ensures !IsHooked(Last(h)) ==> d.event.time == StatusTime(Last(h).time) && d.event.mask == {}
  {
    var n, s, out := Last(h), StateOf(cfg, Before(h)), LastEmitted(cfg, h);
    assert StateOf(cfg, h) == After(s, n, cfg.limit);
    if n.KeyDown? {
      var trace := TraceOf(cfg, Before(h)) + [out[0]];
      TypedShape(cfg.client, trace, ToUInt32(n.time), MaskAfter(s.mask, n), n.vk % 0x1_0000, n.text);
    }
    forall f ensures f in StateOf(cfg, h).mask <==> Held(cfg.start, h, f) {
      MaskIsHistory(cfg, h, f);
    }
  }

  /** A status event is on the same clock as the hooked events exactly while the tick
      count is below 2^31; from there on its time is near 2^64. */
  lemma StatusClock(time: nat)
    ensures StatusTime(time) == ToUInt32(time) <==> ToUInt32(time) < 0x8000_0000
    ensures ToUInt32(time) >= 0x8000_0000 ==> StatusTime(time) == ToUInt32(time) + 0xFFFF_FFFF_0000_0000
  {
    var low := ToUInt32(time);
    assert ToInt32(time) == if low < 0x8000_0000 then low else low - 0x1_0000_0000;
  }

  // ---------- Extra buttons ----------

  /** An extra button 4 sets the left Meta bit though the Windows key was never touched. */
  lemma ExtraButtonSetsMeta(client: Client, limit: int, at: Point)
    ensures var cfg := Config(client, limit, {});
            var h := [ButtonDown(0, 0, Extra(4), at)];
            MetaL in StateOf(cfg, h).mask && !KeyHeld(cfg.start, h, MetaL)
  {
    var h := [ButtonDown(0, 0, Extra(4), at)];
    assert Before(h) == [];
  }

  /** Whether the latest press or release of a flag's key, or re-reading, set it. */
  predicate KeyHeld(start: Mask, h: seq<Native>, f: Flag) {
    if h == [] then f in start
    else if IsButton(Last(h)) then KeyHeld(start, Before(h), f)
    else if Presses(f, Last(h)) then true
    else if Releases(f, Last(h)) then false
    else KeyHeld(start, Before(h), f)
  }

  predicate IsButton(n: Native) {
    n.ButtonDown? || n.ButtonUp?
  }

  /** The latest event that acts on a flag. */
  function LastAction(h: seq<Native>, f: Flag): Option<Native> {
    if h == [] then None
    else if Presses(f, Last(h)) || Releases(f, Last(h)) then Some(Last(h))
    else LastAction(Before(h), f)
  }

  lemma {:induction false} HeldByLastAction(start: Mask, h: seq<Native>, f: Flag)
    ensures match LastAction(h, f)
            case None => Held(start, h, f) == KeyHeld(start, h, f) == (f in start)
            case Some(n) =>
              && (Presses(f, n) || Releases(f, n))
              && Held(start, h, f) == Presses(f, n)
              && (!IsButton(n) ==> KeyHeld(start, h, f) == Presses(f, n))
  {
    if h != [] {
      HeldByLastAction(start, Before(h), f);
    }
  }

  /** A bit tells the truth about its key exactly if no button acted on it last, or that
      button went the way the key did. For every flag but the left Meta and Shift, which
      the extra buttons 4 and 5 act on, no button ever does. */
  lemma KeyBitTruth(cfg: Config, h: seq<Native>, f: Flag)
    requires KeyOf(f).Some?
    ensures (f in StateOf(cfg, h).mask <==> KeyHeld(cfg.start, h, f)) <==>
              match LastAction(h, f)
              case None => true
              case Some(n) => IsButton(n) ==> n.ButtonDown? == KeyHeld(cfg.start, h, f)
    ensures f != MetaL && f != ShiftL ==> (f in StateOf(cfg, h).mask <==> KeyHeld(cfg.start, h, f))
  {
    MaskIsHistory(cfg, h, f);
    HeldByLastAction(cfg.start, h, f);
  }

  /** A button is released under the number it was pressed under exactly unless it is an
      extra button other than the two named ones and 5: every other comes up as 5. */
  lemma NumbersAgree(b: Button)
    ensures PressNumber(b) == ReleaseNumber(b) <==> !(b.Extra? && b.high !in {1, 2, 5})
    ensures PressNumber(Extra(4)) == 4 && ReleaseNumber(Extra(4)) == 5
  {}

  /** The number of a button that is no further extra button. */
  function NumberOf(b: Button): Option<nat> {
    match b
    case Left => Some(1)
    case Right => Some(2)
    case Middle => Some(3)
    case Extra(high) => if high == 1 then Some(4) else if high == 2 then Some(5) else None
  }

  /** A press is one event and a release one or two, under the button's number; a further
      extra button goes down under the number Windows gives it and comes up as 5. */
  lemma ButtonReport(cfg: Config, h: seq<Native>)
    requires h != [] && IsButton(Last(h))
    ensures var (n, out) := (Last(h), LastEmitted(cfg, h));
            && (if n.ButtonDown? then |out| == 1 else 1 <= |out| <= 2)
            && out[0].event.kind == (if n.ButtonDown? then MousePressed else MouseReleased)
            && out[0].event.data.Mouse?
            && out[0].event.data.button
               == (match NumberOf(n.button)
                   case Some(number) => number
                   case None => if n.ButtonDown? then n.button.high else 5)
            && out[0].event.data.clicks == StateOf(cfg, if n.ButtonDown? then h else Before(h)).clicks.count
  {}

  /** A key press is reported, followed by its text exactly when it was not consumed. */
  lemma KeyDownReport(cfg: Config, h: seq<Native>)
    requires h != [] && Last(h).KeyDown?
    ensures var (n, out) := (Last(h), LastEmitted(cfg, h));
            && |out| == 1 + (if out[0].Consumed() then 0 else |n.text|)
            && out[0].event.kind == KeyPressed
            && out[0].event.data == Keyboard(n.scancode, n.vk % 0x1_0000, CHAR_UNDEFINED)
            && forall i :: 1 <= i < |out| ==>
                 out[i].event.kind == KeyTyped &&
                 out[i].event.data == Keyboard(VC_UNDEFINED, n.vk % 0x1_0000, n.text[i - 1])
  {
    var n, s, out := Last(h), StateOf(cfg, Before(h)), LastEmitted(cfg, h);
    var trace := TraceOf(cfg, Before(h)) + [out[0]];
    TypedShape(cfg.client, trace, ToUInt32(n.time), MaskAfter(s.mask, n), n.vk % 0x1_0000, n.text);
  }

  /** A key release is reported, with the same codes. */
  lemma KeyUpReport(cfg: Config, h: seq<Native>)
    requires h != [] && Last(h).KeyUp?
    ensures var (n, out) := (Last(h), LastEmitted(cfg, h));
            && |out| == 1 && out[0].event.kind == KeyReleased
            && out[0].event.data == Keyboard(n.scancode, n.vk % 0x1_0000, CHAR_UNDEFINED)
  {}

  /** Which kinds of event a native event may lead to. */
  predicate MayReport(n: Native, k: Kind) {
    match k
    case HookEnabled => n.Start?
    case HookDisabled => n.Stop?
    case KeyPressed | KeyTyped => n.KeyDown?
    case KeyReleased => n.KeyUp?
    case MousePressed => n.ButtonDown?
    case MouseReleased | MouseClicked => n.ButtonUp?
    case MouseMoved | MouseDragged => n.Move?
    case MouseWheel => n.WheelTurn? && n.setting.Some?
  }

  predicate AtPoint(d: Data, p: Point) {
    match d
    case Mouse(_, _, x, y) => x == ToInt16(p.x) && y == ToInt16(p.y)
    case Wheel(_, x, y, _, _, _, _) => x == ToInt16(p.x) && y == ToInt16(p.y)
    case _ => false
  }

  /** A native event leads to events of its own kinds only, at its own point; and to none
      exactly if it is unhandled, a restart, a move at the pressed point, or a wheel turn
      without a setting. */
  lemma EmittedKinds(cfg: Config, s: State, trace: seq<Dispatched>, n: Native)
    ensures var out := Emitted(cfg, s, trace, n);
            && (out == [] <==> || n.Unhandled? || n.Restart?
                               || (n.Move? && n.at == s.lastClick) || (n.WheelTurn? && n.setting.None?))
            && (n.Start? || n.Stop? ==> |out| == 1)
            && (forall d <- out :: MayReport(n, d.event.kind))
            && (n.ButtonDown? || n.ButtonUp? || n.Move? || n.WheelTurn? ==>
                  forall d <- out :: AtPoint(d.event.data, n.at))
  {
    if n.KeyDown? {
      var d := Emitted(cfg, s, trace, n)[0];
      TypedShape(cfg.client, trace + [d], ToUInt32(n.time), MaskAfter(s.mask, n), n.vk % 0x1_0000, n.text);
    }
  }

  // ---------- Positions: clicks, moves and drags ----------

  /** The point of the most recent press; the zero point of static storage if none. */
  function LastPressAt(h: seq<Native>): Point {
    if h == [] then Point(0, 0)
    else if Last(h).ButtonDown? then Last(h).at
    else LastPressAt(Before(h))
  }

  lemma {:induction false} LastClickIsHistory(cfg: Config, h: seq<Native>)
    ensures StateOf(cfg, h).lastClick == LastPressAt(h)
  {
    if h != [] {
      LastClickIsHistory(cfg, Before(h));
    }
  }

  /** A release is reported, and clicks exactly when it was not consumed and happened
      at the point of the most recent press. */
  lemma ReleaseReport(cfg: Config, h: seq<Native>)
    requires h != [] && Last(h).ButtonUp?
    ensures var out := LastEmitted(cfg, h);
            && 1 <= |out| <= 2 && out[0].event.kind == MouseReleased
            && out[0].event.data.Mouse? && out[0].event.data.button == ReleaseNumber(Last(h).button)
            && out[0].event.data.clicks == StateOf(cfg, Before(h)).clicks.count
            && (|out| == 2 <==> !out[0].Consumed() && Last(h).at == LastPressAt(Before(h)))
            && (|out| == 2 ==> out[1].event == out[0].event.(kind := MouseClicked))
  {
    LastClickIsHistory(cfg, Before(h));
  }

  predicate SomeButtonHeld(start: Mask, h: seq<Native>) {
    || Held(start, h, Button1) || Held(start, h, Button2) || Held(start, h, Button3)
    || Held(start, h, Button4) || Held(start, h, Button5)
  }

  lemma SomeButtonInMask(cfg: Config, h: seq<Native>)
    ensures StateOf(cfg, h).mask * BUTTON_FLAGS != {} <==> SomeButtonHeld(cfg.start, h)
  {
    var m := StateOf(cfg, h).mask;
    MaskIsHistory(cfg, h, Button1);
    MaskIsHistory(cfg, h, Button2);
    MaskIsHistory(cfg, h, Button3);
    MaskIsHistory(cfg, h, Button4);
    MaskIsHistory(cfg, h, Button5);
    if SomeButtonHeld(cfg.start, h) {
      var f :| f in BUTTON_FLAGS && f in m;
      assert f in m * BUTTON_FLAGS;
    }
  }

  /** A move is reported exactly when it leaves the point of the most recent press, as
      a drag exactly while some button is held. */
  lemma MoveReport(cfg: Config, h: seq<Native>)
    requires h != [] && Last(h).Move?
    ensures var out := LastEmitted(cfg, h);
            && (out == [] <==> Last(h).at == LastPressAt(Before(h)))
            && (out != [] ==>
                  && |out| == 1
                  && out[0].event.kind == (if SomeButtonHeld(cfg.start, Before(h)) then MouseDragged else MouseMoved)
                  && out[0].event.data.Mouse? && out[0].event.data.button == MOUSE_NOBUTTON
                  && out[0].event.data.clicks == StateOf(cfg, h).clicks.count)
  {
    LastClickIsHistory(cfg, Before(h));
    SomeButtonInMask(cfg, Before(h));
  }

  // ---------- Swallowing ----------

  /** Whether the last native event of a history is kept from the next hook. */
  predicate Swallowed(cfg: Config, h: seq<Native>)
    requires h != [] && IsHooked(Last(h))
  {
    Swallows(Last(h).nCode, ReservedOf(cfg, h))
  }

  /** The native event dispatched something, or is a wheel turn that was given up. */
  predicate Decides(cfg: Config, h: seq<Native>)
    requires h != []
  {
    LastEmitted(cfg, h) != [] || Last(h).WheelTurn?
  }

  /** Whether the latest deciding event of the history was a given-up wheel turn or
      had its last event consumed. */
  predicate LatestConsumed(cfg: Config, h: seq<Native>) {
    if h == [] then false
    else if !Decides(cfg, h) then LatestConsumed(cfg, Before(h))
    else var out := LastEmitted(cfg, h);
         out == [] || out[|out| - 1].Consumed()
  }

  lemma {:induction false} ReservedIsHistory(cfg: Config, h: seq<Native>)
    ensures ReservedOf(cfg, h) == 0x01 <==> LatestConsumed(cfg, h)
  {
    hide Emitted, StateOf, TraceOf;
    if h != [] {
      ReservedIsHistory(cfg, Before(h));
    }
  }

  /** A native event that dispatches something is swallowed exactly when it may be and
      the last event it dispatched was consumed. */
  lemma SwallowedIffConsumed(cfg: Config, h: seq<Native>)
    requires h != [] && IsHooked(Last(h)) && LastEmitted(cfg, h) != []
    ensures var out := LastEmitted(cfg, h);
            Swallowed(cfg, h) <==> Last(h).nCode >= 0 && out[|out| - 1].Consumed()
  {
    ReservedIsHistory(cfg, h);
  }

  /** A native event that dispatches nothing is swallowed on the strength of an earlier
      one: exactly when the latest deciding event before it was consumed. */
  lemma SwallowedWithoutDispatch(cfg: Config, h: seq<Native>)
    requires h != [] && IsHooked(Last(h)) && !Decides(cfg, h)
    ensures Swallowed(cfg, h) <==> Last(h).nCode >= 0 && LatestConsumed(cfg, Before(h))
  {
    ReservedIsHistory(cfg, Before(h));
  }

  /** A wheel turn that is given up is itself swallowed whenever it may be, though the
      client never saw it. */
  lemma GivenUpTurnSwallowed(cfg: Config, h: seq<Native>)
    requires h != [] && Last(h).WheelTurn? && Last(h).setting.None?
    ensures LastEmitted(cfg, h) == [] && (Swallowed(cfg, h) <==> Last(h).nCode >= 0)
  {
    ReservedIsHistory(cfg, h);
  }

  /** Under a client that consumes everything, a move that does not leave the pressed
      point is swallowed although the client never saw it. */
  lemma UnseenMoveSwallowed(limit: int, at: Point)
    ensures var cfg := Config((_, _) => 0x01, limit, {});
            var h := [ButtonDown(0, 0, Left, at), Move(1, 0, at)];
            LastEmitted(cfg, h) == [] && Swallowed(cfg, h)
  {
    var cfg := Config((_, _) => 0x01, limit, {});
    var h := [ButtonDown(0, 0, Left, at), Move(1, 0, at)];
    assert Before(h) == [ButtonDown(0, 0, Left, at)];
    assert Before(Before(h)) == [];
    assert LastEmitted(cfg, Before(h))[0].Consumed();
    ReservedIsHistory(cfg, h);
  }

  // ---------- Click counts ----------

  /** The press or wheel turn of a native event, if it is one. */
  function MarksOf(n: Native): seq<C.Mark> {
    if n.ButtonDown? then [C.Press(PressNumber(n.button), n.time)]
    else if n.WheelTurn? then [C.Turn]
    else []
  }

  /** The presses and wheel turns of a history. */
  function Marks(h: seq<Native>): seq<C.Mark> {
    if h == [] then [] else Marks(Before(h)) + MarksOf(Last(h))
  }

  function Now(h: seq<Native>): int {
    if h == [] then 0 else Last(h).time
  }

  /** A gap that the 32-bit comparison with the multi-click time gets right: it is short
      of 2^31 ms, or its low 32 bits still read as a positive gap above the limit. */
  predicate Readable(gap: int, limit: int) {
    gap < 0x8000_0000 || (limit < gap && limit < gap % 0x1_0000_0000 < 0x8000_0000)
  }

  predicate Measures(n: Native) {
    n.ButtonDown? || n.ButtonUp? || n.Move?
  }

  /** Times do not decrease, and every button or motion event has a readable gap to the
      latest press, wherever the count is followed. */
  predicate Timely(limit: int, h: seq<Native>, all: bool) {
    h != [] ==>
      && Timely(limit, Before(h), all)
      && Now(Before(h)) <= Last(h).time
      && (Measures(Last(h)) && C.Followed(Marks(Before(h)), all) ==>
            Readable(C.Gap(Marks(Before(h)), Last(h).time), limit))
  }

  /** The comparison on wrapped tick counts is right for every readable gap, and for a
      limit that is itself a positive 32-bit time for no other. */
  lemma ElapsedCompares(c: C.Counter, marks: seq<C.Mark>, limit: int, now: int, all: bool, time: nat)
    requires C.Agrees(c, marks, limit, now, ToUInt32, all) && C.Followed(marks, all) && now <= time
    ensures var right := Elapsed(c, time) <= limit <==> C.Gap(marks, time) <= limit;
            && (Readable(C.Gap(marks, time), limit) ==> right)
            && (0 <= limit < 0x8000_0000 && right ==> Readable(C.Gap(marks, time), limit))
  {
    WrappedDistance(time, C.Latest(marks));
    CompareWrapped(C.Gap(marks, time), limit);
  }

  lemma CompareWrapped(gap: int, limit: int)
    requires gap >= 0
    ensures Readable(gap, limit) ==> (ToInt32(gap) <= limit <==> gap <= limit)
    ensures 0 <= limit < 0x8000_0000 && (ToInt32(gap) <= limit <==> gap <= limit) ==> Readable(gap, limit)
  {
    var low := gap % 0x1_0000_0000;
    assert ToInt32(gap) == if low < 0x8000_0000 then low else low - 0x1_0000_0000;
  }

  /** One native event keeps counter and history in agreement. */
  lemma ClickStep(s: State, marks: seq<C.Mark>, limit: int, now: int, all: bool, n: Native)
    requires C.Agrees(s.clicks, marks, limit, now, ToUInt32, all) && now <= n.time
    requires Measures(n) && C.Followed(marks, all) ==> Readable(C.Gap(marks, n.time), limit)
    ensures C.Agrees(ClicksAfter(s, n, limit), marks + MarksOf(n), limit, n.time, ToUInt32, all)
    ensures n.ButtonDown? && C.Followed(marks + MarksOf(n), all) ==>
              ClicksAfter(s, n, limit).count == C.Capped(C.Tally(marks + MarksOf(n), limit))
  {
    hide C.Agrees, C.Tally, C.Followed, Readable, Elapsed;
    if n.WheelTurn? {
      C.WheelAgrees(s.clicks, marks, limit, now, ToUInt32, all, n.time);
      return;
    }
    if Measures(n) && C.Followed(marks, all) {
      ElapsedCompares(s.clicks, marks, limit, now, all, n.time);
    }
    if n.ButtonDown? {
      C.PressAgrees(s.clicks, marks, limit, now, ToUInt32, all, PressNumber(n.button), n.time,
                    Elapsed(s.clicks, n.time) <= limit);
    } else {
      assert marks + MarksOf(n) == marks;
      var button := if n.ButtonUp? then ReleaseNumber(n.button) else MOUSE_NOBUTTON;
      C.IdleAgrees(s.clicks, marks, limit, now, ToUInt32, all, button, n.time,
                   if Measures(n) then Elapsed(s.clicks, n.time) > limit else C.Gap(marks, n.time) > limit);
    }
  }

  lemma {:induction false} CounterAgrees(cfg: Config, h: seq<Native>, all: bool)
    requires Timely(cfg.limit, h, all)
    ensures C.Agrees(StateOf(cfg, h).clicks, Marks(h), cfg.limit, Now(h), ToUInt32, all)
    ensures h != [] && Last(h).ButtonDown? && C.Followed(Marks(h), all) ==>
              StateOf(cfg, h).clicks.count == C.Capped(C.Tally(Marks(h), cfg.limit))
  {
    if h != [] {
      hide Readable, ClicksAfter;
      CounterAgrees(cfg, Before(h), all);
      ClickStep(StateOf(cfg, Before(h)), Marks(Before(h)), cfg.limit, Now(Before(h)), all, Last(h));
    }
  }

  /** The click count of a press, kept on wrapping 32-bit tick counts, is its tally at true
      times, capped at 65535; for a number other than 0 that is the length of the longest
      chain of presses, and only the gaps after such presses need be readable. */
  lemma PressCount(cfg: Config, h: seq<Native>, all: bool)
    requires h != [] && Timely(cfg.limit, h, all) && Last(h).ButtonDown?
    ensures var out := LastEmitted(cfg, h);
            && |out| == 1 && out[0].event.kind == MousePressed && out[0].event.data.Mouse?
            && out[0].event.data.button == PressNumber(Last(h).button)
            && (all ==> out[0].event.data.clicks == C.Capped(C.Tally(Marks(h), cfg.limit)))
            && (out[0].event.data.button != MOUSE_NOBUTTON ==>
                  out[0].event.data.clicks == C.Capped(C.Chain(Marks(h), cfg.limit)))
  {
    hide ClicksAfter, Timely, Readable, C.Agrees, C.Chain, C.Tally;
    CounterAgrees(cfg, h, all);
    if PressNumber(Last(h).button) != MOUSE_NOBUTTON {
      C.TallyIsChain(Marks(h), cfg.limit);
    }
  }

  /** Without the bound the count can be wrong: a press a whole turn of the tick counter
      after another of the same button counts as a double click. */
  lemma WrapCountsDouble(cfg: Config, at: Point)
    requires 0 <= cfg.limit < 0x1_0000_0000
    ensures var h := [ButtonDown(0, 0, Left, at), ButtonDown(0x1_0000_0000, 0, Left, at)];
            StateOf(cfg, h).clicks.count == 2 && C.Chain(Marks(h), cfg.limit) == 1
  {
    var h := [ButtonDown(0, 0, Left, at), ButtonDown(0x1_0000_0000, 0, Left, at)];
    assert Before(h) == [ButtonDown(0, 0, Left, at)];
    assert Before(Before(h)) == [];
    assert Marks(Before(h)) == [C.Press(1, 0)];
    assert Marks(h) == [C.Press(1, 0), C.Press(1, 0x1_0000_0000)];
    assert Marks(h)[..1] == [C.Press(1, 0)];
    assert StateOf(cfg, Before(h)).clicks == C.Counter(1, 0, 1);
  }

  /** Since the last press or wheel turn, a reported motion or a release of the compared
      number came too late for the multi-click time. */
  predicate Lapsed(limit: int, h: seq<Native>) {
    if h == [] || Last(h).ButtonDown? || Last(h).WheelTurn? then false
    else Lapsed(limit, Before(h)) || (C.Gap(Marks(h), Last(h).time) > limit && EndsCount(h))
  }

  predicate EndsCount(h: seq<Native>)
    requires h != []
  {
    var n := Last(h);
    (n.Move? && n.at != LastPressAt(h)) || (n.ButtonUp? && ReleaseNumber(n.button) == C.Button(Marks(h)))
  }

  /** The count that releases, clicks and motion report, after every history whose count is
      followed: the tally of the presses and wheel turns, or 0 once it has lapsed. */
  lemma {:induction false} StoredCount(cfg: Config, h: seq<Native>, all: bool)
    requires Timely(cfg.limit, h, all) && C.Followed(Marks(h), all)
    ensures StateOf(cfg, h).clicks.count
         == if Lapsed(cfg.limit, h) then 0 else C.Capped(C.Tally(Marks(h), cfg.limit))
  {
    hide C.Tally, Elapsed, Readable;
    if h == [] {
      assert C.Tally([], cfg.limit) == 0 by { C.TallyBasics([], cfg.limit); }
      return;
    }
    var b, n := Before(h), Last(h);
    if n.ButtonDown? {
      CounterAgrees(cfg, h, all);
    } else if n.WheelTurn? {
      C.TallyBasics(Marks(b), cfg.limit);
    } else {
      assert Marks(h) == Marks(b);
      StoredCount(cfg, b, all);
      CounterAgrees(cfg, b, all);
      LastClickIsHistory(cfg, b);
      if Measures(n) {
        ElapsedCompares(StateOf(cfg, b).clicks, Marks(b), cfg.limit, Now(b), all, n.time);
      }
    }
  }

  // ---------- Wheel ----------

  /** The wheel turns since the last start. */
  function Turns(h: seq<Native>): seq<W.Turn> {
    if h == [] || Last(h).Start? then []
    else Turns(Before(h)) + if Last(h).WheelTurn? then [Last(h).turn] else []
  }

  function DirectionOf(axis: W.Axis): nat {
    if axis.Vertical? then WHEEL_VERTICAL_DIRECTION else WHEEL_HORIZONTAL_DIRECTION
  }

  /** The rotations on one axis of the wheel events in a piece of trace. */
  function Rotations(t: seq<Dispatched>, axis: W.Axis): int {
    if t == [] then 0
    else
      var d := t[0].event.data;
      (if d.Wheel? && d.direction == DirectionOf(axis) then d.rotation else 0) + Rotations(t[1..], axis)
  }

  /** The rotations dispatched on one axis since the last start. */
  function RotationsSince(cfg: Config, h: seq<Native>, axis: W.Axis): int {
    if h == [] || Last(h).Start? then 0
    else RotationsSince(cfg, Before(h), axis) + Rotations(LastEmitted(cfg, h), axis)
  }

  lemma {:induction false} NoWheelData(t: seq<Dispatched>, axis: W.Axis)
    requires forall i :: 0 <= i < |t| ==> !t[i].event.data.Wheel?
    ensures Rotations(t, axis) == 0
  {
    if t != [] {
      NoWheelData(t[1..], axis);
    }
  }

  /** The rotation of a wheel turn that is given up, because the scroll setting cannot be read. */
  function GivenUp(s: State, n: Native, axis: W.Axis): int {
    if n.WheelTurn? && n.turn.axis == axis && n.setting.None? then W.Rotation(s.wheel, n.turn) else 0
  }

  /** The rotations given up on one axis since the last start. */
  function LostSince(cfg: Config, h: seq<Native>, axis: W.Axis): int {
    if h == [] || Last(h).Start? then 0
    else LostSince(cfg, Before(h), axis) + GivenUp(StateOf(cfg, Before(h)), Last(h), axis)
  }

  /** Since the last start, the scroll setting could be read for every turn of the axis. */
  predicate AllRead(h: seq<Native>, axis: W.Axis) {
    if h == [] || Last(h).Start? then true
    else AllRead(Before(h), axis) && (Last(h).WheelTurn? && Last(h).turn.axis == axis ==> Last(h).setting.Some?)
  }

  lemma {:induction false} AllReadNoneLost(cfg: Config, h: seq<Native>, axis: W.Axis)
    requires AllRead(h, axis)
    ensures LostSince(cfg, h, axis) == 0
  {
    if h != [] && !Last(h).Start? {
      AllReadNoneLost(cfg, Before(h), axis);
    }
  }

  lemma EmittedRotations(cfg: Config, s: State, trace: seq<Dispatched>, n: Native, axis: W.Axis)
    ensures Rotations(Emitted(cfg, s, trace, n), axis) + GivenUp(s, n, axis)
         == if n.WheelTurn? && n.turn.axis == axis then W.Rotation(s.wheel, n.turn) else 0
  {
    var out := Emitted(cfg, s, trace, n);
    if n.WheelTurn? {
      assert out != [] ==> out == [out[0]] && out[1..] == [];
    } else {
      if n.KeyDown? {
        TypedShape(cfg.client, trace + [out[0]], ToUInt32(n.time), MaskAfter(s.mask, n), n.vk % 0x1_0000, n.text);
      }
      NoWheelData(out, axis);
    }
  }

  lemma {:induction false} WheelIsHistory(cfg: Config, h: seq<Native>, axis: W.Axis)
    ensures StateOf(cfg, h).wheel == W.Run(W.Residuals(0, 0), Turns(h))
    ensures RotationsSince(cfg, h, axis) + LostSince(cfg, h, axis) == W.Reported(W.Residuals(0, 0), Turns(h), axis)
  {
    hide W.After, W.Rotation, Emitted, Rotations, GivenUp, ClicksAfter, MaskAfter;
    if h != [] && !Last(h).Start? {
      var b, n := Before(h), Last(h);
      WheelIsHistory(cfg, b, axis);
      if n.WheelTurn? {
        W.RunSnoc(W.Residuals(0, 0), Turns(b), n.turn, axis);
      } else {
        assert Turns(h) == Turns(b);
      }
      EmittedRotations(cfg, StateOf(cfg, b), TraceOf(cfg, b), n, axis);
    }
  }

  /** A wheel turn is reported exactly if the scroll setting can be read: a page setting
      as one block, any other as that many units, in the direction of its axis. */
  lemma WheelReport(cfg: Config, h: seq<Native>)
    requires h != [] && Last(h).WheelTurn?
    ensures var (n, out) := (Last(h), LastEmitted(cfg, h));
            && (out != [] <==> n.setting.Some?)
            && (out != [] ==>
                  && |out| == 1 && out[0].event.kind == MouseWheel && out[0].event.data.Wheel?
                  && var w := out[0].event.data;
                  && w.wheelClicks == 1 && w.direction == DirectionOf(n.turn.axis)
                  && w.rotation == W.Rotation(StateOf(cfg, Before(h)).wheel, n.turn)
                  && w.scroll == (if n.setting.value == 0xFFFF_FFFF then WHEEL_BLOCK_SCROLL else WHEEL_UNIT_SCROLL)
                  && w.amount == if w.scroll == WHEEL_BLOCK_SCROLL then 1 else n.setting.value % 0x1_0000)
  {}

  /** Over every session, what was turned on an axis is WHEEL_DELTA times what the client
      received and what was given up, plus a residual below one notch: exactly when every
      delta is safe, and modulo 2^16 for any deltas. So the client can account for it all,
      up to that residual, exactly if nothing was lost, and nothing is lost while the scroll
      setting can be read. */
  lemma WheelConserved(cfg: Config, h: seq<Native>, axis: W.Axis)
    ensures var (received, lost) := (RotationsSince(cfg, h, axis), LostSince(cfg, h, axis));
            var (turned, rest) := (W.Turned(Turns(h), axis), StateOf(cfg, h).wheel.On(axis));
            var told := W.WHEEL_DELTA * (W.Sign(axis) * (received + lost));
            && -W.WHEEL_DELTA < rest < W.WHEEL_DELTA
            && W.Same16(turned, told + rest)
            && ((forall t <- Turns(h) :: W.Safe(t)) ==>
                  && turned == told + rest
                  && (turned == W.WHEEL_DELTA * (W.Sign(axis) * received) + rest <==> lost == 0))
            && (AllRead(h, axis) ==> lost == 0)
  {
    hide W.Run, W.Reported, W.Turned, W.Same16, W.Safe, RotationsSince, LostSince, StateOf, Turns;
    WheelIsHistory(cfg, h, axis);
    W.Conservation(Turns(h), axis);
    if AllRead(h, axis) {
      AllReadNoneLost(cfg, h, axis);
    }
    SignedSum(axis, RotationsSince(cfg, h, axis), LostSince(cfg, h, axis));
  }

  lemma SignedSum(axis: W.Axis, received: int, lost: int)
    ensures W.WHEEL_DELTA * (W.Sign(axis) * (received + lost))
         == W.WHEEL_DELTA * (W.Sign(axis) * received) + (if axis.Vertical? then -120 * lost else 120 * lost)
  {}

  /** A whole notch turned while the scroll setting cannot be read is lost. */
  lemma GivenUpTurnLost(cfg: Config, at: Point)
    ensures var h := [WheelTurn(0, 0, W.Turn(W.Horizontal, 120), at, None)];
            RotationsSince(cfg, h, W.Horizontal) == 0 && LostSince(cfg, h, W.Horizontal) == 1
  {
    var h := [WheelTurn(0, 0, W.Turn(W.Horizontal, 120), at, None)];
    assert Before(h) == [];
  }
}
