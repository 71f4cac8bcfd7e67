/** The handshake by which the Darwin hook thread has the main run loop look up the
    characters of a key: a mutex, a condition variable, a signalled run-loop source
    and the shared message. Both threads are interleaved step by step over
    unboundedly many key presses.

    Assumed of the platform: no spurious wakeups; the main loop is entered at most
    once. That the main loop has a mode only between being entered and being left is a
    condition of the guarantees, and proved to be the exact one. */
module RunloopHandshake {
  import opened Options

  datatype Owner = Nobody | HookThread | MainThread

  /** The hook thread inside process_key_pressed, by the statement it is about to execute. */
  datatype HookAt =
    | Idle         // before the next unconsumed key press
    | Lock         // pthread_mutex_lock
    | Check        // CFRunLoopCopyCurrentMode
    | Signal       // CFRunLoopSourceSignal and CFRunLoopWakeUp
    | Wait         // pthread_cond_wait, still holding the mutex
    | Waiting      // asleep on the condition
    | Relock       // woken, taking the mutex back
    | Unlock       // pthread_mutex_unlock
    | Read         // the loop over the typed characters

  /** The main thread: the run loop, main_runloop_keycode_proc, main_runloop_status_proc. */
  datatype MainAt =
    | NotEntered | Running
    | LookupLock | LookupStart | LookingUp | LookupBroadcast | LookupUnlock
    | ExitLock | ExitBroadcast | ExitUnlock | Exited

  /** The shared message: the event to look up and the characters found. */
  datatype Message = Message(event: Option<nat>, chars: seq<nat>)

  /** How a key came to be read: its lookup was waited for, or the main loop had no mode
      when the key was checked, or the exit observer woke the hook thread. */
  datatype Answer = LookedUp | NoMode | LoopLeft

  /** What the hook thread read for one key. */
  datatype Entry = Entry(key: nat, chars: seq<nat>, answer: Answer)

  datatype State = State(
    mutex: Owner,
    signalled: bool,
    message: Message,
    hook: HookAt,
    main: MainAt,
    pressed: nat,        // unconsumed key presses so far
    key: nat,            // the key in progress; keys are numbered from 0
    answer: Answer,
    log: seq<Entry>)

  const INITIAL := State(Nobody, false, Message(None, []), Idle, NotEntered, 0, 0, LookedUp, [])

  /** What the platform decides: the characters that the lookup of a key yields, and where
      the main thread is while CFRunLoopCopyCurrentMode of its loop is not NULL. */
  datatype System = System(results: nat -> seq<nat>, hasMode: MainAt -> bool)

  /** The main loop has no mode before it is entered and after it is left. */
  ghost predicate ModeEnds(sys: System) {
    !sys.hasMode(NotEntered) && !sys.hasMode(Exited)
  }

  datatype Label =
    | Press                     // an unconsumed key press reaches the hook thread
    | HookStep                  // the hook thread executes its next statement
    | Enter                     // the main loop starts
    | Fire                      // the main loop performs the signalled source
    | Leave                     // the main loop begins to exit
    | OtherWork                 // the main loop serves something else
    | Scribble(chars: seq<nat>) // a running lookup writes into the message
    | MainStep                  // the main thread executes its next statement

  function WakeAll(h: HookAt): HookAt {
    if h == Waiting then Relock else h
  }

  function HookNext(sys: System, s: State): Option<State> {
    match s.hook
    case Idle => None
    case Lock => if s.mutex == Nobody then Some(s.(mutex := HookThread, hook := Check)) else None
    case Check => if sys.hasMode(s.main) then Some(s.(hook := Signal)) else Some(s.(hook := Unlock, answer := NoMode))
    case Signal => Some(s.(signalled := true, hook := Wait))
    case Wait => Some(s.(mutex := Nobody, hook := Waiting))
    case Waiting => None
    case Relock => if s.mutex == Nobody then Some(s.(mutex := HookThread, hook := Unlock)) else None
    case Unlock => Some(s.(mutex := Nobody, hook := Read))
    case Read => Some(s.(hook := Idle, log := s.log + [Entry(s.key, s.message.chars, s.answer)]))
  }

  /** keycode_to_lookup. */
  function Lookup(sys: System, m: Message): Message {
    if m.event.Some? then m.(chars := sys.results(m.event.value)) else m
  }

  function MainNext(sys: System, s: State): Option<State> {
    match s.main
    case LookupLock => if s.mutex == Nobody then Some(s.(mutex := MainThread, main := LookupStart)) else None
    case LookupStart => Some(s.(main := LookingUp))
    case LookingUp => Some(s.(message := Lookup(sys, s.message), main := LookupBroadcast))
    case LookupBroadcast => Some(s.(hook := WakeAll(s.hook), main := LookupUnlock))
    case LookupUnlock => Some(s.(mutex := Nobody, main := Running))
    case ExitLock => if s.mutex == Nobody then Some(s.(mutex := MainThread, main := ExitBroadcast)) else None
    case ExitBroadcast =>
      Some(s.(hook := WakeAll(s.hook), main := ExitUnlock,
              answer := if s.hook == Waiting then LoopLeft else s.answer))
    case ExitUnlock => Some(s.(mutex := Nobody, main := Exited))
    case _ => None
  }

  /** One step of the system; None when the label is not enabled. */
  function Next(sys: System, s: State, l: Label): Option<State> {
    match l
    case Press =>
      if s.hook == Idle
      then Some(s.(message := Message(Some(s.pressed), []), hook := Lock, pressed := s.pressed + 1, key := s.pressed,
                   answer := LookedUp))
      else None
    case HookStep => HookNext(sys, s)
    case Enter => if s.main == NotEntered then Some(s.(main := Running)) else None
    case Fire => if s.main == Running && s.signalled then Some(s.(signalled := false, main := LookupLock)) else None
    case Leave => if s.main == Running then Some(s.(main := ExitLock)) else None
    case OtherWork => if s.main == Running then Some(s) else None
    case Scribble(chars) => if s.main == LookingUp then Some(s.(message := s.message.(chars := chars))) else None
    case MainStep => MainNext(sys, s)
  }

  function Run(sys: System, s: State, labels: seq<Label>): Option<State> {
    if labels == [] then Some(s)
    else
      match Run(sys, s, labels[..|labels| - 1])
      case None => None
      case Some(t) => Next(sys, t, labels[|labels| - 1])
  }

  // ---------- The invariant ----------

  predicate HookHolds(h: HookAt) {
    h == Check || h == Signal || h == Wait || h == Unlock
  }

  predicate MainHolds(m: MainAt) {
    || m == LookupStart || m == LookingUp || m == LookupBroadcast || m == LookupUnlock
    || m == ExitBroadcast || m == ExitUnlock
  }

  /** The main thread serves a fired source and has not broadcast yet. */
  predicate Serving(m: MainAt) {
    m == LookupLock || m == LookupStart || m == LookingUp || m == LookupBroadcast
  }

  /** A broadcast is still to come. */
  predicate WakeupDue(s: State) {
    (s.main == Running && s.signalled) || Serving(s.main) || s.main == ExitLock || s.main == ExitBroadcast
  }

  predicate Asleep(h: HookAt) {
    h == Wait || h == Waiting
  }

  /** The main loop has fired its exit observer. */
  predicate Gone(m: MainAt) {
    m == ExitUnlock || m == Exited
  }

  /** The characters of a key are its own lookup if that was waited for, and else none. */
  predicate Faithful(sys: System, e: Entry) {
    e.chars == if e.answer == LookedUp then sys.results(e.key) else []
  }

  ghost predicate MutexInv(s: State) {
    && (s.mutex == HookThread <==> HookHolds(s.hook))
    && (s.mutex == MainThread <==> MainHolds(s.main))
  }

  ghost predicate SignalInv(s: State) {
    && (s.hook == Signal ==> s.main == Running || s.main == ExitLock)
    && (Asleep(s.hook) ==> WakeupDue(s))
    && (Serving(s.main) ==> Asleep(s.hook) && !s.signalled)
    && (s.signalled ==> Asleep(s.hook) || Gone(s.main))
  }

  ghost predicate MessageInv(sys: System, s: State) {
    && (s.hook != Idle ==> s.pressed == s.key + 1 && s.message.event == Some(s.key))
    && (s.hook == Lock || s.hook == Check || s.hook == Signal ==> s.message.chars == [])
    && (Asleep(s.hook) && s.main != LookingUp && s.main != LookupBroadcast ==> s.message.chars == [])
    && (s.main == LookupBroadcast ==> s.message.chars == sys.results(s.key))
    && (s.hook == Lock || s.hook == Check || s.hook == Signal || Asleep(s.hook) ==> s.answer == LookedUp)
    && (s.answer == LoopLeft ==> Gone(s.main))
    && (s.hook == Relock || s.hook == Unlock || s.hook == Read ==>
          Faithful(sys, Entry(s.key, s.message.chars, s.answer)))
  }

  ghost predicate LogInv(sys: System, s: State) {
    && s.pressed == |s.log| + (if s.hook == Idle then 0 else 1)
    && forall i :: 0 <= i < |s.log| ==> s.log[i].key == i && Faithful(sys, s.log[i])
  }

  ghost predicate Inv(sys: System, s: State) {
    MutexInv(s) && SignalInv(s) && MessageInv(sys, s) && LogInv(sys, s)
  }

  lemma StepKeepsMutex(sys: System, s: State, l: Label)
    requires MutexInv(s) && Next(sys, s, l).Some?
    ensures MutexInv(Next(sys, s, l).value)
  {}

  lemma HookKeepsSignal(sys: System, s: State)
    requires ModeEnds(sys) && MutexInv(s) && SignalInv(s) && HookNext(sys, s).Some?
    ensures SignalInv(HookNext(sys, s).value)
  {}

  lemma MainKeepsSignal(sys: System, s: State)
    requires MutexInv(s) && SignalInv(s) && MainNext(sys, s).Some?
    ensures SignalInv(MainNext(sys, s).value)
  {}

  lemma StepKeepsSignal(sys: System, s: State, l: Label)
    requires ModeEnds(sys) && MutexInv(s) && SignalInv(s) && Next(sys, s, l).Some?
    ensures SignalInv(Next(sys, s, l).value)
  {
    hide HookNext, MainNext;
    match l {
      case HookStep => HookKeepsSignal(sys, s);
      case MainStep => MainKeepsSignal(sys, s);
      case _ =>
    }
  }

  lemma HookKeepsMessage(sys: System, s: State)
    requires MutexInv(s) && SignalInv(s) && MessageInv(sys, s) && HookNext(sys, s).Some?
    ensures MessageInv(sys, HookNext(sys, s).value)
  {}

  lemma MainKeepsMessage(sys: System, s: State)
    requires MutexInv(s) && SignalInv(s) && MessageInv(sys, s) && MainNext(sys, s).Some?
    ensures MessageInv(sys, MainNext(sys, s).value)
  {}

  lemma StepKeepsMessage(sys: System, s: State, l: Label)
    requires MutexInv(s) && SignalInv(s) && MessageInv(sys, s) && Next(sys, s, l).Some?
    ensures MessageInv(sys, Next(sys, s, l).value)
  {
    hide HookNext, MainNext;
    match l {
      case HookStep => HookKeepsMessage(sys, s);
      case MainStep => MainKeepsMessage(sys, s);
      case _ =>
    }
  }

  lemma StepKeepsLog(sys: System, s: State, l: Label)
    requires Inv(sys, s) && Next(sys, s, l).Some?
    ensures LogInv(sys, Next(sys, s, l).value)
  {
    var t := Next(sys, s, l).value;
    assert t.log == s.log || (s.hook == Read && t.log == s.log + [Entry(s.key, s.message.chars, s.answer)]);
  }

  lemma StepKeepsInv(sys: System, s: State, l: Label)
    requires ModeEnds(sys) && Inv(sys, s) && Next(sys, s, l).Some?
    ensures Inv(sys, Next(sys, s, l).value)
  {
    StepKeepsMutex(sys, s, l);
    StepKeepsSignal(sys, s, l);
    StepKeepsMessage(sys, s, l);
    StepKeepsLog(sys, s, l);
  }

  /** Every state any interleaving can reach satisfies the invariant. */
  lemma {:induction false} ReachableInv(sys: System, labels: seq<Label>)
    requires ModeEnds(sys)
    ensures Run(sys, INITIAL, labels).Some? ==> Inv(sys, Run(sys, INITIAL, labels).value)
  {
    if labels != [] {
      var before := labels[..|labels| - 1];
      ReachableInv(sys, before);
      if Run(sys, INITIAL, labels).Some? {
        StepKeepsInv(sys, Run(sys, INITIAL, before).value, labels[|labels| - 1]);
      }
    }
  }

  // ---------- What the protocol guarantees ----------

  /** Whenever the hook thread touches the message, no lookup is running, and what it
      reads is this key's lookup exactly if that was waited for, and else nothing; and the
      exit observer woke it only if it has fired. */
  lemma ReadsAreFaithful(sys: System, labels: seq<Label>)
    requires ModeEnds(sys) && Run(sys, INITIAL, labels).Some?
    ensures var s := Run(sys, INITIAL, labels).value;
            && (s.hook == Idle || s.hook == Read ==> s.main != LookingUp)
            && (s.hook == Read ==> Faithful(sys, Entry(s.key, s.message.chars, s.answer)))
            && (s.answer == LoopLeft ==> Gone(s.main))
  {
    ReachableInv(sys, labels);
  }

  /** Over every run, the keys are read once each, in order, each with its own lookup,
      or with nothing because, for this very key, the main loop had no mode or its exit
      observer ended the wait. */
  lemma LogIsFaithful(sys: System, labels: seq<Label>, i: nat)
    requires ModeEnds(sys) && Run(sys, INITIAL, labels).Some?
    requires i < |Run(sys, INITIAL, labels).value.log|
    ensures var s := Run(sys, INITIAL, labels).value;
            && |s.log| <= s.pressed <= |s.log| + 1
            && s.log[i].key == i && Faithful(sys, s.log[i])
  {
    ReachableInv(sys, labels);
  }

  /** The main loop has a mode all the while between being entered and being left. */
  ghost predicate ModeStays(sys: System) {
    forall m: MainAt :: m != NotEntered && m != Exited ==> sys.hasMode(m)
  }

  /** The main loop has been entered, and every key was looked up until it was left. */
  ghost predicate AllLookedUp(s: State) {
    && s.main != NotEntered
    && (!Gone(s.main) ==> s.answer == LookedUp && forall i :: 0 <= i < |s.log| ==> s.log[i].answer == LookedUp)
  }

  lemma StepLooksUp(sys: System, s: State, l: Label)
    requires ModeStays(sys) && AllLookedUp(s) && Next(sys, s, l).Some?
    ensures AllLookedUp(Next(sys, s, l).value)
  {
    var t := Next(sys, s, l).value;
    assert t.log == s.log || t.log == s.log + [Entry(s.key, s.message.chars, s.answer)];
  }

  lemma {:induction false} RunLooksUp(sys: System, labels: seq<Label>)
    requires ModeStays(sys) && labels != [] && labels[0] == Enter && Run(sys, INITIAL, labels).Some?
    ensures AllLookedUp(Run(sys, INITIAL, labels).value)
  {
    var before := labels[..|labels| - 1];
    if before == [] {
      assert Run(sys, INITIAL, before) == Some(INITIAL);
    } else {
      RunLooksUp(sys, before);
      StepLooksUp(sys, Run(sys, INITIAL, before).value, labels[|labels| - 1]);
    }
  }

  /** Over every run that begins by entering the main loop, as long as its exit observer has
      not fired, every key is read with the characters of its own lookup. */
  lemma EveryKeyAnswered(sys: System, labels: seq<Label>, i: nat)
    requires ModeEnds(sys) && ModeStays(sys) && labels != [] && labels[0] == Enter
    requires Run(sys, INITIAL, labels).Some? && !Gone(Run(sys, INITIAL, labels).value.main)
    requires i < |Run(sys, INITIAL, labels).value.log|
    ensures Run(sys, INITIAL, labels).value.log[i].chars == sys.results(i)
  {
    RunLooksUp(sys, labels);
    LogIsFaithful(sys, labels, i);
  }

  /** How far the main thread is from its next broadcast. */
  function Distance(m: MainAt): nat {
    match m
    case Running => 5
    case LookupLock => 4
    case LookupStart => 3
    case LookingUp => 2
    case LookupBroadcast => 1
    case ExitLock => 2
    case ExitBroadcast => 1
    case _ => 0
  }

  /** A step of the main thread that is not unrelated work or part of a running lookup. */
  predicate Productive(l: Label) {
    l == Fire || l == Leave || l == MainStep
  }

  /** No lost wakeup, one step: while the hook thread sleeps, a wakeup is due, a
      productive step of the main thread is enabled, and every such step wakes the
      hook thread or brings the broadcast nearer. */
  lemma WakeupApproaches(sys: System, s: State)
    requires Inv(sys, s) && s.hook == Waiting
    ensures WakeupDue(s) && Distance(s.main) > 0
    ensures Next(sys, s, Fire).Some? || Next(sys, s, MainStep).Some?
    ensures forall l :: Next(sys, s, l).Some? ==>
              var t := Next(sys, s, l).value;
              && (t.hook != Waiting ==> t.hook == Relock)
              && (t.hook == Waiting ==> Distance(t.main) + (if Productive(l) then 1 else 0) <= Distance(s.main))
  {}

  /** The productive steps among some labels. */
  function ProductiveSteps(labels: seq<Label>): nat {
    if labels == [] then 0
    else ProductiveSteps(labels[..|labels| - 1]) + if Productive(labels[|labels| - 1]) then 1 else 0
  }

  /** No lost wakeup, over runs: however a run goes on after the hook thread fell
      asleep, it sleeps through at most four productive steps of the main thread. */
  lemma {:induction false} SleepIsBounded(sys: System, s: State, labels: seq<Label>)
    requires ModeEnds(sys) && Inv(sys, s) && s.hook == Waiting
    requires forall k :: 0 <= k <= |labels| ==>
               Run(sys, s, labels[..k]).Some? && Run(sys, s, labels[..k]).value.hook == Waiting
    ensures Run(sys, s, labels).Some? && Inv(sys, Run(sys, s, labels).value)
    ensures Distance(Run(sys, s, labels).value.main) + ProductiveSteps(labels) <= Distance(s.main)
    ensures ProductiveSteps(labels) <= 4
  {
    assert labels[..|labels|] == labels;
    if labels != [] {
      var before := labels[..|labels| - 1];
      forall k | 0 <= k <= |before|
        ensures Run(sys, s, before[..k]).Some? && Run(sys, s, before[..k]).value.hook == Waiting
      {
        assert before[..k] == labels[..k];
      }
      SleepIsBounded(sys, s, before);
      var t := Run(sys, s, before).value;
      WakeupApproaches(sys, t);
      StepKeepsInv(sys, t, labels[|labels| - 1]);
      WakeupApproaches(sys, Run(sys, s, labels).value);
    } else {
      WakeupApproaches(sys, s);
    }
  }

  /** No deadlock: while a key is in progress, one of the threads can always step. */
  lemma NoDeadlock(sys: System, s: State)
    requires Inv(sys, s) && s.hook != Idle
    ensures Next(sys, s, HookStep).Some? || Next(sys, s, MainStep).Some? || Next(sys, s, Fire).Some?
  {}

  // ---------- The condition on the mode ----------

  /** In every state a run reaches in which the hook thread sleeps, a wakeup is due. */
  ghost predicate NoLostWakeup(sys: System) {
    forall labels ::
      Run(sys, INITIAL, labels).Some? && Run(sys, INITIAL, labels).value.hook == Waiting ==>
        WakeupDue(Run(sys, INITIAL, labels).value)
  }

  /** The state in which key 0 has been pressed while the main thread is at m and holds nothing. */
  function Pressed(m: MainAt): State {
    State(Nobody, false, Message(Some(0), []), Lock, m, 1, 0, LookedUp, [])
  }

  /** A key checked while the main thread is at m, where there is a mode, puts the hook
      thread to sleep. */
  lemma FallsAsleep(sys: System, labels: seq<Label>, m: MainAt)
    requires sys.hasMode(m) && Run(sys, INITIAL, labels) == Some(Pressed(m))
    ensures Run(sys, INITIAL, labels + [HookStep] + [HookStep] + [HookStep] + [HookStep])
         == Some(Pressed(m).(hook := Waiting, signalled := true))
  {
    hide Run;
    var s1 := Pressed(m).(mutex := HookThread, hook := Check);
    var s2 := Pressed(m).(mutex := HookThread, hook := Signal);
    var s3 := Pressed(m).(mutex := HookThread, hook := Wait, signalled := true);
    RunSnoc(sys, INITIAL, Pressed(m), labels, HookStep, s1);
    RunSnoc(sys, INITIAL, s1, labels + [HookStep], HookStep, s2);
    RunSnoc(sys, INITIAL, s2, labels + [HookStep] + [HookStep], HookStep, s3);
    RunSnoc(sys, INITIAL, s3, labels + [HookStep] + [HookStep] + [HookStep], HookStep,
            Pressed(m).(hook := Waiting, signalled := true));
  }

  lemma PressedBeforeEntry(sys: System)
    ensures Run(sys, INITIAL, [Press]) == Some(Pressed(NotEntered))
  {
    assert Run(sys, INITIAL, []) == Some(INITIAL);
    RunSnoc(sys, INITIAL, INITIAL, [], Press, Pressed(NotEntered));
    assert [] + [Press] == [Press];
  }

  lemma LoopLeaving(sys: System)
    ensures Run(sys, INITIAL, [Enter] + [Leave] + [MainStep])
         == Some(INITIAL.(main := ExitBroadcast, mutex := MainThread))
  {
    var s1 := INITIAL.(main := Running);
    var s2 := INITIAL.(main := ExitLock);
    assert Run(sys, INITIAL, []) == Some(INITIAL);
    RunSnoc(sys, INITIAL, INITIAL, [], Enter, s1);
    assert [] + [Enter] == [Enter];
    hide Run;
    RunSnoc(sys, INITIAL, s1, [Enter], Leave, s2);
    RunSnoc(sys, INITIAL, s2, [Enter] + [Leave], MainStep, INITIAL.(main := ExitBroadcast, mutex := MainThread));
  }

  lemma PressedAfterExit(sys: System)
    ensures Run(sys, INITIAL, [Enter] + [Leave] + [MainStep] + [MainStep] + [MainStep] + [Press])
         == Some(Pressed(Exited))
  {
    hide Run;
    var s3 := INITIAL.(main := ExitBroadcast, mutex := MainThread);
    var s4 := INITIAL.(main := ExitUnlock, mutex := MainThread);
    var s5 := INITIAL.(main := Exited);
    LoopLeaving(sys);
    RunSnoc(sys, INITIAL, s3, [Enter] + [Leave] + [MainStep], MainStep, s4);
    RunSnoc(sys, INITIAL, s4, [Enter] + [Leave] + [MainStep] + [MainStep], MainStep, s5);
    RunSnoc(sys, INITIAL, s5, [Enter] + [Leave] + [MainStep] + [MainStep] + [MainStep], Press, Pressed(Exited));
  }

  /** If the mode lingers after the main loop has been left, a run ends with the hook
      thread asleep and nothing enabled any more. */
  lemma LingeringModeLosesWakeup(sys: System)
    requires sys.hasMode(Exited)
    ensures var labels := [Enter] + [Leave] + [MainStep] + [MainStep] + [MainStep] + [Press]
                          + [HookStep] + [HookStep] + [HookStep] + [HookStep];
            && Run(sys, INITIAL, labels).Some?
            && var s := Run(sys, INITIAL, labels).value;
            && s.hook == Waiting && !WakeupDue(s)
            && forall l :: Next(sys, s, l) == None
  {
    hide Run;
    PressedAfterExit(sys);
    FallsAsleep(sys, [Enter] + [Leave] + [MainStep] + [MainStep] + [MainStep] + [Press], Exited);
  }

  /** No wakeup is lost over any run exactly if the main loop has no mode before it is
      entered and after it is left. */
  lemma NoLostWakeupIffModeEnds(sys: System)
    ensures NoLostWakeup(sys) <==> ModeEnds(sys)
  {
    hide Run;
    if ModeEnds(sys) {
      forall labels | Run(sys, INITIAL, labels).Some?
        ensures Run(sys, INITIAL, labels).value.hook == Waiting ==> WakeupDue(Run(sys, INITIAL, labels).value)
      {
        ReachableInv(sys, labels);
      }
    }
    if sys.hasMode(Exited) {
      LingeringModeLosesWakeup(sys);
    }
    if sys.hasMode(NotEntered) {
      PressedBeforeEntry(sys);
      FallsAsleep(sys, [Press], NotEntered);
    }
  }

  lemma RunSnoc(sys: System, s: State, t: State, labels: seq<Label>, l: Label, u: State)
    requires Run(sys, s, labels) == Some(t) && Next(sys, t, l) == Some(u)
    ensures Run(sys, s, labels + [l]) == Some(u)
  {
    assert (labels + [l])[..|labels|] == labels;
  }
}
