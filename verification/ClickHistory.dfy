/** Multi-click counting. The X11 and the Windows translator keep the same three
    fields (count, time and button of the last press) and update them on presses,
    wheel turns, releases and motion; they differ in how a time gap is computed.
    Here the counter is related to the history of presses it has seen. */
module ClickHistory {

  const NO_BUTTON := 0
  const COUNT_MAX := 65535

  datatype Counter = Counter(count: nat, time: int, button: nat)

  /** `within`: the gap to the last press is within the multi-click time. */
  function OnPress(c: Counter, button: nat, time: int, within: bool): Counter {
    if button == c.button && within then
      Counter(if c.count < COUNT_MAX then c.count + 1 else c.count, time, button)
    else
      Counter(1, time, button)
  }

  function OnWheel(c: Counter): Counter {
    c.(count := 1, button := NO_BUTTON)
  }

  function OnRelease(c: Counter, button: nat, late: bool): Counter {
    if button == c.button && late then c.(count := 0) else c
  }

  function OnMotion(c: Counter, late: bool): Counter {
    if c.count != 0 && late then c.(count := 0) else c
  }

  /** What a history leaves to count by: its presses and wheel turns, in order, at
      true (unbounded) times. */
  datatype Mark = Press(button: nat, time: int) | Turn

  /** Two presses of one button whose gap is within the limit. */
  predicate Near(a: Mark, b: Mark, limit: int) {
    a.Press? && b.Press? && a.button == b.button && b.time - a.time <= limit
  }

  /** The last n marks form a chain: presses of one button, each near the one before. */
  ghost predicate IsChain(marks: seq<Mark>, limit: int, n: nat) {
    && n <= |marks|
    && (n > 0 ==> marks[|marks| - 1].Press?)
    && forall i, j :: |marks| - n <= i && j == i + 1 < |marks| ==> Near(marks[i], marks[j], limit)
  }

  /** The length of the longest chain ending at the last mark. */
  function Chain(marks: seq<Mark>, limit: int): nat {
    if marks == [] || marks[|marks| - 1].Turn? then 0
    else
      var before := marks[..|marks| - 1];
      var m := marks[|marks| - 1];
      if before != [] && Near(before[|before| - 1], m, limit)
      then 1 + Chain(before, limit)
      else 1
  }

  /** Chain is the longest: every chain is at most that long, and all up to it are chains. */
  lemma {:induction false} ChainIsLongest(marks: seq<Mark>, limit: int, n: nat)
    ensures IsChain(marks, limit, n) <==> n <= Chain(marks, limit)
  {
    if n >= 2 && |marks| >= 2 && marks[|marks| - 1].Press? {
      var before := marks[..|marks| - 1];
      ChainIsLongest(before, limit, n - 1);
      ChainSplit(marks, limit, n);
    }
  }

  lemma ChainSplit(marks: seq<Mark>, limit: int, n: nat)
    requires 2 <= n && |marks| >= 2
    ensures IsChain(marks, limit, n) <==>
              Near(marks[|marks| - 2], marks[|marks| - 1], limit) && IsChain(marks[..|marks| - 1], limit, n - 1)
  {
    var before := marks[..|marks| - 1];
    if IsChain(marks, limit, n) {
      assert Near(marks[|marks| - 2], marks[|marks| - 1], limit);
      assert before[|before| - 1] == marks[|marks| - 2];
    }
    if Near(marks[|marks| - 2], marks[|marks| - 1], limit) && IsChain(before, limit, n - 1) {
      forall i, j | |marks| - n <= i && j == i + 1 < |marks| ensures Near(marks[i], marks[j], limit) {
        if j < |before| {
          assert Near(before[i], before[j], limit);
        }
      }
    }
  }

  function Capped(n: nat): nat {
    if n < 65535 then n else 65535
  }

  /** The button the counter compares with: none after a wheel turn or at the start. */
  function Button(marks: seq<Mark>): nat {
    if marks == [] || marks[|marks| - 1].Turn? then NO_BUTTON else marks[|marks| - 1].button
  }

  /** The time of the latest press, whatever followed it; 0 before the first. */
  function Latest(marks: seq<Mark>): int {
    if marks == [] then 0
    else if marks[|marks| - 1].Press? then marks[|marks| - 1].time
    else Latest(marks[..|marks| - 1])
  }

  function Gap(marks: seq<Mark>, now: int): int {
    now - Latest(marks)
  }

  /** The count after any marks. A wheel turn counts one; a press counts one more than
      what came before if it is of the compared button and within the limit. For the
      numbered buttons this is the longest chain; a press of no number also continues
      wheel turns. */
  function Tally(marks: seq<Mark>, limit: int): nat {
    if marks == [] then 0
    else
      var before, m := marks[..|marks| - 1], marks[|marks| - 1];
      if m.Press? && m.button == Button(before) && Gap(before, m.time) <= limit
      then 1 + Tally(before, limit)
      else 1
  }

  lemma TallyBasics(marks: seq<Mark>, limit: int)
    ensures Tally([], limit) == 0 && Tally(marks + [Turn], limit) == 1
  {}

  predicate EndsNumbered(marks: seq<Mark>) {
    marks != [] && marks[|marks| - 1].Press? && marks[|marks| - 1].button != NO_BUTTON
  }

  /** The count of a press of a numbered button is the length of its longest chain. */
  lemma {:induction false} TallyIsChain(marks: seq<Mark>, limit: int)
    requires EndsNumbered(marks)
    ensures Tally(marks, limit) == Chain(marks, limit)
  {
    var before, m := marks[..|marks| - 1], marks[|marks| - 1];
    if m.button == Button(before) {
      assert EndsNumbered(before);
      TallyIsChain(before, limit);
    }
  }

  /** The marks after which the count is followed: all of them, or only those that end in
      a press of a numbered button, in which case less is asked of the times. */
  predicate Followed(marks: seq<Mark>, all: bool) {
    all || EndsNumbered(marks)
  }

  /** What the counter holds at time `now` after a history, `stamp` being how the
      machine stores a time. The count may have been zeroed, but only when a press
      at or after `now` would start again from 1 anyway. */
  ghost predicate Agrees(c: Counter, marks: seq<Mark>, limit: int, now: int, stamp: int -> int, all: bool) {
    && c.button == Button(marks)
    && (Followed(marks, all) ==>
          && Latest(marks) <= now
          && c.time == stamp(Latest(marks))
          && (c.count == Capped(Tally(marks, limit)) || (c.count == 0 && Gap(marks, now) > limit)))
  }

  /** A press keeps the agreement, and counts its tally. */
  lemma PressAgrees(c: Counter, marks: seq<Mark>, limit: int, now: int, stamp: int -> int, all: bool,
                    button: nat, time: int, within: bool)
    requires Agrees(c, marks, limit, now, stamp, all) && now <= time
    requires Followed(marks, all) ==> (within <==> Gap(marks, time) <= limit)
    ensures var c' := OnPress(c, button, stamp(time), within);
            var marks' := marks + [Press(button, time)];
            && Agrees(c', marks', limit, time, stamp, all)
            && (Followed(marks', all) ==> c'.count == Capped(Tally(marks', limit)))
  {
    var marks' := marks + [Press(button, time)];
    assert marks'[..|marks|] == marks;
  }

  lemma WheelAgrees(c: Counter, marks: seq<Mark>, limit: int, now: int, stamp: int -> int, all: bool, time: int)
    requires Agrees(c, marks, limit, now, stamp, all) && now <= time
    ensures Agrees(OnWheel(c), marks + [Turn], limit, time, stamp, all)
  {
    assert (marks + [Turn])[..|marks|] == marks;
  }

  /** Releases and motion keep the agreement: a zeroed count is one that no longer counts. */
  lemma IdleAgrees(c: Counter, marks: seq<Mark>, limit: int, now: int, stamp: int -> int, all: bool,
                   button: nat, time: int, late: bool)
    requires Agrees(c, marks, limit, now, stamp, all) && now <= time
    requires Followed(marks, all) ==> (late <==> Gap(marks, time) > limit)
    ensures Agrees(c, marks, limit, time, stamp, all)
    ensures Agrees(OnRelease(c, button, late), marks, limit, time, stamp, all)
    ensures Agrees(OnMotion(c, late), marks, limit, time, stamp, all)
  {}
}
