/** The scroll-wheel accumulator of the Windows input helper: per axis, native
    deltas are carried in a 16-bit residual and whole notches are reported. */
module WheelAccumulator {
  import opened CArithmetic

  const WHEEL_DELTA := 120

  datatype Axis = Vertical | Horizontal

  /** One native wheel message. */
  datatype Turn = Turn(axis: Axis, delta: int)

  /** The two static residuals, v_rotation and h_rotation. */
  datatype Residuals = Residuals(v: int, h: int) {
    function On(axis: Axis): int {
      if axis.Vertical? then v else h
    }
  }

  /** The sign with which an axis is reported: vertical is inverted on Windows. */
  function Sign(axis: Axis): int {
    if axis.Vertical? then -1 else 1
  }

  /** What an axis holds after adding a delta to a residual in 16-bit arithmetic. */
  function Carried(residual: int, delta: int): int {
    ToInt16(residual + ToInt16(delta))
  }

  /** The notches reported, and the residual kept, of what an axis holds. */
  function Notches(held: int, axis: Axis): int {
    Quot(held, Sign(axis) * WHEEL_DELTA)
  }

  function Kept(held: int): int {
    Rem(held, WHEEL_DELTA)
  }

  /** The rotation reported for one turn. */
  function Rotation(r: Residuals, t: Turn): int {
    Notches(Carried(r.On(t.axis), t.delta), t.axis)
  }

  /** The residuals left after one turn. */
  function After(r: Residuals, t: Turn): Residuals {
    var rest := Kept(Carried(r.On(t.axis), t.delta));
    if t.axis.Vertical? then r.(v := rest) else r.(h := rest)
  }

  /** The residuals left after a whole run. */
  function Run(r: Residuals, turns: seq<Turn>): Residuals {
    if turns == [] then r
    else After(Run(r, turns[..|turns| - 1]), turns[|turns| - 1])
  }

  /** The signed total of the rotations reported on one axis during a run. */
  function Reported(r: Residuals, turns: seq<Turn>, axis: Axis): int {
    if turns == [] then 0
    else
      var before := turns[..|turns| - 1];
      var t := turns[|turns| - 1];
      Reported(r, before, axis) + if t.axis == axis then Rotation(Run(r, before), t) else 0
  }

  /** The total of the native deltas on one axis. */
  function Turned(turns: seq<Turn>, axis: Axis): int {
    if turns == [] then 0
    else
      var t := turns[|turns| - 1];
      Turned(turns[..|turns| - 1], axis) + if t.axis == axis then t.delta else 0
  }

  /** A delta that cannot overflow the 16-bit accumulator, whatever the residual. */
  predicate Safe(t: Turn) {
    -32649 <= t.delta <= 32648
  }

  /** Equality in 16-bit arithmetic. */
  predicate Same16(a: int, b: int) {
    (a - b) % 0x1_0000 == 0
  }

  lemma CarriedValue(residual: int, delta: int)
    requires -WHEEL_DELTA < residual < WHEEL_DELTA
    ensures Same16(Carried(residual, delta), residual + delta)
    ensures -32649 <= delta <= 32648 ==> Carried(residual, delta) == residual + delta
  {}

  lemma NotchesAndRest(held: int, axis: Axis)
    ensures held == WHEEL_DELTA * (Sign(axis) * Notches(held, axis)) + Kept(held)
    ensures -WHEEL_DELTA < Kept(held) < WHEEL_DELTA
  {
    QuotRem(held, WHEEL_DELTA);
  }

  /** Rounding. Of what an axis holds after a turn, in 16-bit arithmetic, the whole notches
      nearest to zero are reported, vertical ones with the opposite sign, and the rest is
      kept; the other axis is not touched. This determines rotation and residuals. */
  lemma RoundsTowardZero(r: Residuals, t: Turn)
    ensures var held := ToInt16(r.On(t.axis) + t.delta);
            var told := if t.axis == Vertical then -120 * Rotation(r, t) else 120 * Rotation(r, t);
            && (held >= 0 ==> 0 <= told <= held < told + 120)
            && (held <= 0 ==> told - 120 < held <= told <= 0)
            && After(r, t) == if t.axis == Vertical then Residuals(held - told, r.h) else Residuals(r.v, held - told)
  {
    hide Notches, Kept;
    var held := Carried(r.On(t.axis), t.delta);
    CarriedOnce(r.On(t.axis), t.delta);
    NotchesAndRest(held, t.axis);
    KeptSign(held);
  }

  lemma CarriedOnce(residual: int, delta: int)
    ensures Carried(residual, delta) == ToInt16(residual + delta)
  {
    Same16Unique(residual + ToInt16(delta), residual + delta);
  }

  lemma Same16Unique(a: int, b: int)
    requires Same16(a, b)
    ensures ToInt16(a) == ToInt16(b)
  {
    var k := (a - b) / 0x1_0000;
    assert a + 0x8000 == b + 0x8000 + 0x1_0000 * k;
  }

  lemma KeptSign(held: int)
    ensures held >= 0 ==> Kept(held) >= 0
    ensures held <= 0 ==> Kept(held) <= 0
  {
    QuotRem(held, WHEEL_DELTA);
  }

  /** All turns of one axis go one way, and none overflows. */
  ghost predicate OneWay(turns: seq<Turn>, axis: Axis, forward: bool) {
    forall t <- turns :: Safe(t) && (t.axis == axis ==> if forward then t.delta >= 0 else t.delta <= 0)
  }

  /** While an axis is turned one way, what was reported never runs ahead of what was
      turned, and stays behind by less than a notch. */
  lemma {:induction false} NeverAhead(turns: seq<Turn>, axis: Axis, forward: bool)
    requires OneWay(turns, axis, forward)
    ensures var (turned, reported) := (Turned(turns, axis), Reported(Residuals(0, 0), turns, axis));
            var told := if axis == Vertical then -120 * reported else 120 * reported;
            if forward then 0 <= told <= turned < told + 120 else told - 120 < turned <= told <= 0
  {
    hide Rotation, After;
    Conservation(turns, axis);
    assert Told(turns, axis) == if axis == Vertical
                                then -120 * Reported(Residuals(0, 0), turns, axis)
                                else 120 * Reported(Residuals(0, 0), turns, axis);
    ResidualSign(turns, axis, forward);
    TurnedSign(turns, axis, forward);
  }

  lemma {:induction false} TurnedSign(turns: seq<Turn>, axis: Axis, forward: bool)
    requires OneWay(turns, axis, forward)
    ensures if forward then Turned(turns, axis) >= 0 else Turned(turns, axis) <= 0
  {
    if turns != [] {
      TurnedSign(turns[..|turns| - 1], axis, forward);
      assert turns[|turns| - 1] in turns;
    }
  }

  lemma {:induction false} ResidualSign(turns: seq<Turn>, axis: Axis, forward: bool)
    requires OneWay(turns, axis, forward)
    ensures var end := Run(Residuals(0, 0), turns).On(axis);
            if forward then 0 <= end < 120 else -120 < end <= 0
  {
    if turns != [] {
      var before, t := turns[..|turns| - 1], turns[|turns| - 1];
      assert t in turns && forall u <- before :: u in turns;
      ResidualSign(before, axis, forward);
      hide After;
      StepSign(Run(Residuals(0, 0), before), t, axis, forward);
    }
  }

  lemma StepSign(r: Residuals, t: Turn, axis: Axis, forward: bool)
    requires if forward then 0 <= r.On(axis) < 120 else -120 < r.On(axis) <= 0
    requires Safe(t) && (t.axis == axis ==> if forward then t.delta >= 0 else t.delta <= 0)
    ensures if forward then 0 <= After(r, t).On(axis) < 120 else -120 < After(r, t).On(axis) <= 0
  {
    if t.axis == axis {
      hide Rotation, After;
      assert ToInt16(r.On(axis) + t.delta) == r.On(axis) + t.delta;
      RoundsTowardZero(r, t);
    } else {
      StepOnAxis(r, r, t, axis);
    }
  }

  lemma Balance(told: int, residual: int, turned: int, delta: int, axis: Axis)
    requires -WHEEL_DELTA < residual < WHEEL_DELTA
    requires Same16(turned, told + residual)
    ensures var held := Carried(residual, delta);
            var told' := told + WHEEL_DELTA * (Sign(axis) * Notches(held, axis));
            && -WHEEL_DELTA < Kept(held) < WHEEL_DELTA
            && Same16(turned + delta, told' + Kept(held))
            && (turned == told + residual && Safe(Turn(axis, delta)) ==> turned + delta == told' + Kept(held))
  {
    hide Carried, Notches, Kept;
    CarriedValue(residual, delta);
    NotchesAndRest(Carried(residual, delta), axis);
  }

  /** WHEEL_DELTA times the signed total reported on an axis. */
  function Told(turns: seq<Turn>, axis: Axis): int {
    WHEEL_DELTA * (Sign(axis) * Reported(Residuals(0, 0), turns, axis))
  }

  /** Wheel conservation. Whatever the interleaving of the axes, what was turned
      on an axis is WHEEL_DELTA times what was reported plus a residual below one
      notch: exactly when every delta is safe, and modulo 2^16 for any deltas. */
  lemma {:induction false} Conservation(turns: seq<Turn>, axis: Axis)
    ensures var end := Run(Residuals(0, 0), turns).On(axis);
            && -WHEEL_DELTA < end < WHEEL_DELTA
            && Same16(Turned(turns, axis), Told(turns, axis) + end)
            && ((forall t <- turns :: Safe(t)) ==> Turned(turns, axis) == Told(turns, axis) + end)
  {
    if turns != [] {
      var before, t := turns[..|turns| - 1], turns[|turns| - 1];
      Conservation(before, axis);
      assert t in turns && forall u <- before :: u in turns;
      if t.axis == axis {
        Balance(Told(before, axis), Run(Residuals(0, 0), before).On(axis), Turned(before, axis), t.delta, axis);
      }
    }
  }

  /** The turns of one axis, in order. */
  function OnAxis(turns: seq<Turn>, axis: Axis): seq<Turn> {
    if turns == [] then []
    else
      var t := turns[|turns| - 1];
      OnAxis(turns[..|turns| - 1], axis) + if t.axis == axis then [t] else []
  }

  lemma RunSnoc(r: Residuals, turns: seq<Turn>, t: Turn, axis: Axis)
    ensures Run(r, turns + [t]) == After(Run(r, turns), t)
    ensures Reported(r, turns + [t], axis)
         == Reported(r, turns, axis) + if t.axis == axis then Rotation(Run(r, turns), t) else 0
  {
    assert (turns + [t])[..|turns|] == turns;
  }

  /** A turn reads and writes its own axis only. */
  lemma StepOnAxis(a: Residuals, b: Residuals, t: Turn, axis: Axis)
    requires a.On(axis) == b.On(axis)
    ensures t.axis == axis ==> Rotation(a, t) == Rotation(b, t) && After(a, t).On(axis) == After(b, t).On(axis)
    ensures t.axis != axis ==> After(a, t).On(axis) == b.On(axis)
  {}

  /** The axes do not influence each other: dropping the other axis changes
      neither what is reported on an axis nor its residual. */
  lemma {:induction false} AxesIndependent(r: Residuals, turns: seq<Turn>, axis: Axis)
    ensures Run(r, turns).On(axis) == Run(r, OnAxis(turns, axis)).On(axis)
    ensures Reported(r, turns, axis) == Reported(r, OnAxis(turns, axis), axis)
  {
    if turns == [] {
      return;
    }
    var before, t := turns[..|turns| - 1], turns[|turns| - 1];
    AxesIndependent(r, before, axis);
    var rest := OnAxis(before, axis);
    StepOnAxis(Run(r, before), Run(r, rest), t, axis);
    if t.axis == axis {
      RunSnoc(r, rest, t, axis);
      assert OnAxis(turns, axis) == rest + [t];
    } else {
      assert OnAxis(turns, axis) == rest;
    }
  }

  /** The static accumulator itself. */
  class Accumulator {
    var vRotation: int
    var hRotation: int

    function Value(): Residuals reads this {
      Residuals(vRotation, hRotation)
    }

    /** Static storage starts at zero. */
    constructor ()
      ensures Value() == Residuals(0, 0)
    {
      vRotation, hRotation := 0, 0;
    }

    /** The reset in load_input_helper. */
    method Reset()
      modifies this
      ensures Value() == Residuals(0, 0)
    {
      vRotation, hRotation := 0, 0;
    }

    /** get_scroll_wheel_rotation. */
    method GetRotation(delta: int, axis: Axis) returns (value: int)
      modifies this
      ensures value == Rotation(old(Value()), Turn(axis, delta))
      ensures Value() == After(old(Value()), Turn(axis, delta))
    {
      if axis == Vertical {
        vRotation := ToInt16(vRotation + ToInt16(delta));
        value := Quot(vRotation, -1 * WHEEL_DELTA);
        vRotation := Rem(vRotation, WHEEL_DELTA);
      } else {
        hRotation := ToInt16(hRotation + ToInt16(delta));
        value := Quot(hRotation, WHEEL_DELTA);
        hRotation := Rem(hRotation, WHEEL_DELTA);
      }
    }
  }
}
