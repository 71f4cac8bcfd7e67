# libuiohook: a verified model of its translators

libuiohook turns native keyboard and mouse input into one portable event stream. This
project models the parts of it that hold state, arithmetic or heap structure of their
own, and proves what they guarantee over every input and every run. The operating system
and the client's callback are an arbitrary environment: parameters, oracles, or steps of
a second thread.

| module | models |
|---|---|
| `LocaleCache`, `LocaleCacheSpec`, `LocaleCacheProperties` | the keyboard-locale cache of the Windows input helper: a singly linked heap list, swept and extended in place, with a current pointer and manual allocation |
| `X11Hook`, `X11Properties` | the X11 translator: modifier mask, click counter, drag flag, and the trace of dispatched events |
| `WindowsHook`, `WindowsProperties` | the Windows translator, with 32-bit tick counts and the consuming of native events |
| `ClickHistory` | the click counter both translators share, against the history of presses |
| `RunloopHandshake` | the Darwin hook thread and main run loop, interleaved step by step |
| `KeysymTable`, `Utf16` | keysym/Unicode conversion over any sorted table, and the UTF-16 encoder against section 2.2 of RFC 2781 |
| `WheelAccumulator` | the Windows wheel residuals, with C division and 16-bit wrap-around |
| `PostEvent` | Windows coordinate scaling, and the recursion of posting an event |
| `CArithmetic`, `Events`, `Histories`, `Options` | C integer operators, event records and the client, and small vocabulary |

State that the source updates in place is a class whose methods follow the source's
statements and are proved equal to functions of the whole history; the guarantees are
lemmas about those functions. `ProcessAll` (both translators) and
`LocaleList.Execute` connect the two for whole runs.

A modifier mask is the set of its bits. A client is any function of the events
dispatched so far and the new one, and can change only the reserved field.

## Where the code does not do what one would expect

Each is stated as a lemma: a concrete input, the exact condition, or both.

- Evicting the first cached locale writes through a null pointer
  (`src/windows/input_helper.c:550`): `HeadEvictionCrashes`; a refresh is defined exactly
  when the cache is empty, nothing is listed, or the first cached layout is still listed
  (`LocaleList.RefreshList` with `LocaleCacheSpec.Crashes`).
- Evicting a locale does not free its library: `EvictedLibraryLeaks`; after unloading none
  is left open exactly if no refresh found a cached layout unlisted: `LibrariesReturned`.
- A selection reads the focus twice (`src/windows/input_helper.c:680` and `:501-502`), and
  when the focus changes in between it may end with a layout that was not asked for:
  `ChangedFocusSelected`; `SelectFinds` says exactly when, `SteadyFocus` that it needs a change.
- A Windows native event that dispatches nothing is swallowed on the strength of an
  earlier one: `UnseenMoveSwallowed`, `SwallowedWithoutDispatch`.
- The Windows click count can be wrong after a whole turn of the tick counter:
  `WrapCountsDouble`; `ElapsedCompares` says which gaps are misread.
- So can the X11 click count, for a press after the server's 32-bit time has wrapped:
  `X11Properties.WrapCountsDouble`; `X11Properties.ElapsedCompares` says exactly when.
- A key without a character types U+0000 on X11 (`src/x11/input_helper.c:1680-1682`): `NulTyped`.
- The times of Windows start and stop events are sign-extended from tick 2^31 on
  (`src/windows/input_hook.c:134`, `:150`): `StatusClock`, `EmittedStamp`.
- The two extra X11 buttons share one mask bit: `ExtraButtonsShareBit`; `SharedBit` and
  `SharedBitTruth` say when it tells the truth about either.
- On Windows the extra buttons 4 and 5 act on the keyboard bits MetaL and ShiftL:
  `ExtraButtonSetsMeta`; `KeyBitTruth` says when a keyboard bit tells of its key.
  Such a button may go down under one number and come up under another: `NumbersAgree`.
- X11 wheel turns are recognised by the logical button but reported by the physical one:
  `SwappedWheelMisreported`; `WheelReport` says when the report is that of the logical button.
- A Windows wheel turn is lost when the scroll setting cannot be read, and swallowed although
  the client never saw it: `GivenUpTurnLost`, `GivenUpTurnSwallowed`, `WheelConserved`.
- A listed character may be missed by the search of the unsorted Unicode column, whose
  comment promises a table sorted by keysym only: `ListedCharacterMissed`. A row is found
  exactly if its character is not Latin-1 and the rows compared on the way to it are ordered
  (`RowFoundIff`, `TaggedIff`), all of them exactly if the column is sorted and free of
  Latin-1: `AllListedFoundIffSorted`. The way back is right all the same: `RoundTrip`.
- A direct UCS keysym above U+FFFF loses its upper bits: `DirectUcs`.
- A surrogate pair is written without a check of the buffer's length:
  `Utf16.KeycodeToUnicode` is not ok exactly there.
- The input of a posted wheel event carries the event's y and type for a position, since the
  source reads the event's data by its mouse view (`src/windows/post_event.c:122-123`,
  `include/uiohook.h:98-116`): `WheelMisplaced`; `PostedAtPosition` says exactly when an
  input is at the event's own position.
- Coordinate 0 is scaled to -1, outside the coordinate space: `ScaleInside`.
- The amount of a posted wheel turn may overflow 32 bits: `PostedAsAsked`.
- A posted mouse release leaves the caller's event a press: `RepostedRelease`.
- Of the ten extended keys only Up is flagged as extended, whatever the state of Shift
  (`src/windows/post_event.c:99-105`, `include/uiohook.h:374`): `FlagExtended`.
- Posting a mouse event while the screen size reads zero divides by zero:
  `Poster.HookPostEvent` is not ok exactly there.
- The handshake loses no wakeup exactly if the main loop has no mode before it is entered and
  none after it is left: `NoLostWakeupIffModeEnds`, `LingeringModeLosesWakeup`.

## Model

| member | source | states |
|---|---|---|
| LocaleCache.Unlist | src/windows/input_helper.c:521-529 | The inner loop finds a layout exactly if listed, and nulls its first occurrence in place |
| LocaleCache.MarkAt | src/windows/input_helper.c:521-529 | Exactly the first occurrence of the layout is nulled, duplicates stay |
| LocaleCache.LocaleList.SetNext | src/windows/input_helper.c:550-551 | A node's link is written only while the node is live, and nothing else is written |
| LocaleCache.LocaleList.Malloc | src/windows/input_helper.c:589-590 | An allocated node is new and live, and counted once |
| LocaleCache.LocaleList.Free | src/windows/input_helper.c:558 | Only a live node is freed, so none twice; it is live no more, and counted once |
| LocaleCache.LocaleList.Evict | src/windows/input_helper.c:545-562 | Unlinking a live node from the middle keeps the list acyclic and its nodes exactly the live ones; a current pointer to it becomes null; one free is counted |
| LocaleCache.LocaleList.Append | src/windows/input_helper.c:589-638 | A freshly allocated node extends the chain at its end, becomes current exactly if its layout is focused, and is counted once |
| LocaleCache.LocaleList.SweepItem | src/windows/input_helper.c:520-566 | One turn of the sweep keeps or removes the item as the specification says, reads no freed node, and stops exactly where the previous item is null and the item unlisted |
| LocaleCache.LocaleList.SweepList | src/windows/input_helper.c:515-566 | The sweep terminates; it fails exactly if the first item is no longer listed, and else has swept all items |
| LocaleCache.LocaleList.InsertLayout | src/windows/input_helper.c:570-659 | One layout is appended if it loads; a missing descriptor costs one allocation and one free; other failures change nothing |
| LocaleCache.LocaleList.InsertList | src/windows/input_helper.c:569-660 | All unmatched layouts are tried in list order |
| LocaleCache.LocaleList.RefreshList | src/windows/input_helper.c:489-674 | The heap after a refresh is the specified cache, with the count of its items; it is not ok exactly when the source writes through null |
| LocaleCache.LocaleList.Search | src/windows/input_helper.c:690-695 | The pointer search returns the node of the plain linear search |
| LocaleCache.LocaleList.SelectLocale | src/windows/input_helper.c:677-716 | Fast path, search and refresh together are the specified selection |
| LocaleCache.LocaleList.Pop | src/windows/input_helper.c:898-903 | Removing the head frees one live node and leaves a sound shorter list |
| LocaleCache.LocaleList.UnloadAll | src/windows/input_helper.c:892-911 | Unloading frees every node once, returns the length of the list, and leaves an empty list with a null current pointer |
| LocaleCache.LocaleList.Execute | src/windows/input_helper.c:489-911 | Every run of loads, selections and unloads on the heap follows the specification up to the call that crashes |
| LocaleCache.LocaleList.ValidIsWellFormed | src/windows/input_helper.c:404-415 | A valid heap list represents a well-formed cache |
| LocaleCacheSpec.RefreshWellFormed | src/windows/input_helper.c:515-660 | A refresh keeps the current item live, the nodes distinct, and allocations minus frees equal to the length, for any layout list |
| LocaleCacheSpec.SelectWellFormed | src/windows/input_helper.c:686-716 | So does a selection |
| LocaleCacheSpec.RunWellFormed | src/windows/input_helper.c:489-911 | Over every run that has not crashed: node conservation, a current item that is null or live, no node twice, one open library per item and per eviction |
| LocaleCacheSpec.FindIsFirst | src/windows/input_helper.c:690-695 | The linear search finds an item of the layout exactly if there is one |
| LocaleCacheSpec.FindFirst | src/windows/input_helper.c:690-695 | What it finds is the first item of that layout |
| LocaleCacheProperties.SweepContents | src/windows/input_helper.c:515-566 | The sweep keeps exactly the listed items in order, and nulls exactly the cached layouts |
| LocaleCacheProperties.RefreshContents | src/windows/input_helper.c:515-660 | After a refresh: the surviving items in their order, then one new item for each uncached layout that loads, in list order |
| LocaleCacheProperties.RefreshIds | src/windows/input_helper.c:515-660 | A layout is cached afterwards exactly if it is listed and was cached or loads |
| LocaleCacheProperties.RefreshDistinct | src/windows/input_helper.c:515-660 | Ids stay distinct |
| LocaleCacheProperties.RefreshCurrent | src/windows/input_helper.c:532-633 | The focused layout's item becomes current; without one the current item survives exactly if still listed |
| LocaleCacheProperties.RefreshTwice | src/windows/input_helper.c:489-674 | A second refresh with the same answers never crashes and finds the same items and current item; nothing at all changes exactly if no uncached layout lacks a descriptor |
| LocaleCacheProperties.SelectAgrees | src/windows/input_helper.c:686-716 | The fast path and the refresh agree with a plain linear search; a cached layout is found without other changes |
| LocaleCacheProperties.CachedSelected | src/windows/input_helper.c:679-702 | A cached layout is selected and nothing else changes: the focused window's if readable, and else the hook thread's own |
| LocaleCacheProperties.SelectFinds | src/windows/input_helper.c:679-716 | Whatever the focus does between its two readings, a selection ends with an item exactly if the wanted layout was cached, or the one focused at the refresh is listed and was cached or loads; the item is of the wanted layout exactly if that was cached or is focused at the refresh |
| LocaleCacheProperties.SteadyFocus | src/windows/input_helper.c:679-716 | If the focus does not change between the readings, the selected item is null or of the wanted layout |
| LocaleCacheProperties.ChangedFocusSelected | src/windows/input_helper.c:499-503 | If it does, a layout that was not asked for can be selected |
| LocaleCacheProperties.RunDistinct | src/windows/input_helper.c:515-716 | Over every run with duplicate-free layout lists the cached ids are distinct |
| LocaleCacheProperties.RunSelection | src/windows/input_helper.c:677-716 | At the end of every such run a selection ends with exactly that, in a live item, for any focus changes |
| LocaleCacheProperties.HeadEvictionCrashes | src/windows/input_helper.c:545-550 | A run that removes the first cached layout crashes |
| LocaleCacheProperties.SecondLoadCrashes | src/windows/input_helper.c:489-674 | Two loads crash exactly if the first layout the first one loaded is missing from the second one's non-empty list |
| LocaleCacheProperties.FailedListing | src/windows/input_helper.c:489-674 | If listing the layouts fails nothing changes |
| LocaleCacheProperties.RefreshEvicted | src/windows/input_helper.c:545-562 | A refresh evicts exactly as many items as are no longer listed |
| LocaleCacheProperties.LibrariesReturned | src/windows/input_helper.c:546-911 | After unloading at the end of any run with duplicate-free lists no library is left open exactly if no refresh of the run found a cached layout missing from a non-empty list |
| LocaleCacheProperties.EvictedLibraryLeaks | src/windows/input_helper.c:546-562 | Two layouts loaded, one evicted, all unloaded: one library stays open |
| X11Hook.Hook.Dispatch | src/x11/input_hook.c:112-123 | Dispatching appends the static event with the client's reserved value |
| X11Hook.Hook.InitializeLocks | src/x11/input_hook.c:141-186 | The three lock bits follow the LEDs; a failed reading changes nothing |
| X11Hook.Hook.ProcessKeyPress | src/x11/input_hook.c:287-383 | New state and events of a key press |
| X11Hook.Hook.ProcessTyped | src/x11/input_hook.c:364-382 | The typed loop dispatches one event per unit, in order |
| X11Hook.Hook.ProcessKeyRelease | src/x11/input_hook.c:384-455 | New state and event of a key release |
| X11Hook.Hook.ProcessButtonPress | src/x11/input_hook.c:456-624 | New state and event of a button press or wheel turn |
| X11Hook.Hook.ProcessButtonRelease | src/x11/input_hook.c:625-742 | New state and events of a button release |
| X11Hook.Hook.ProcessMotion | src/x11/input_hook.c:743-789 | New state and event of a motion |
| X11Hook.Hook.Process | src/x11/input_hook.c:254-803 | New state and events of any native event |
| X11Hook.Hook.ProcessAll | src/x11/input_hook.c:254-803 | Over a whole session the incremental state and trace are the functions of the history |
| X11Properties.MaskIsHistory | src/x11/input_hook.c:126-138 | Each of the sixteen mask bits is set exactly if the latest press, release or LED reading of what it stands for set it (starting value if none) |
| X11Properties.EmittedStamp | src/x11/input_hook.c:346-374 | Every dispatched event carries the recorded 32-bit time and that mask |
| X11Properties.UnmappedButton | src/x11/input_hook.c:456-565 | Without a pointer map the physical buttons 1, 2, 3, 8, 9 are reported as 1, 3, 2, 4, 5 and act on the bits of buttons 1, 3, 2, 5, 5; 4 to 7 are the wheel, any other is button 0 |
| X11Properties.MappedButton | src/x11/input_helper.c:1760-1783 | A physical button acts as the one the pointer map names, if it names one, does without a map |
| X11Properties.PhysicalButton | src/x11/input_helper.c:1760-1783 | Under a constant injective pointer map a physical button acting as logical 1, 2 or 3 owns its bit: set exactly while that button is down |
| X11Properties.ExtraButtonsShareBit | src/x11/input_hook.c:557-565 | Releasing one extra button clears the bit while the other is down |
| X11Properties.SharedBit | src/x11/input_hook.c:557-565 | Under a constant injective pointer map the shared bit is the state of whichever extra button was acted on last, and the starting value if neither was |
| X11Properties.SharedBitTruth | src/x11/input_hook.c:557-565 | It tells the truth about one of them exactly if the other was not acted on last, or both are in the same state |
| X11Properties.KeyReport | src/x11/input_hook.c:328-352 | A key event is reported once, a press followed by its text exactly if unconsumed; the keycode is marked exactly for the eleven keypad keys while the latest LED reading has Num Lock off |
| X11Properties.EmittedKinds | src/x11/input_hook.c:254-803 | A native event leads to events of its own kinds only, at its own position, and to none exactly if unhandled or the release of a wheel button |
| X11Properties.WheelReport | src/x11/input_hook.c:463-535 | A turn is one event of three units whose rotation and direction are those of the physical button, and of a turn to the right if that is no wheel button; they are those of the logical button exactly if the two are the same, or the logical one is right and the physical one is none of the other three |
| X11Properties.SwappedWheelMisreported | src/x11/input_hook.c:463-535 | With the wheel buttons swapped by the pointer map a turn down is reported as a turn up |
| X11Properties.TraceGrammatical | src/x11/input_hook.c:287-790 | Every trace: at most two KEY_TYPED, only directly after an unconsumed KEY_PRESSED and with its raw code, time and mask; MOUSE_CLICKED only directly after an unconsumed MOUSE_RELEASED, equal to it but for the kind |
| X11Properties.DraggedIsHistory | src/x11/input_hook.c:755-757 | The drag flag says whether the most recent motion happened with a button held |
| X11Properties.MotionReport | src/x11/input_hook.c:743-789 | Motion is one event, a drag exactly while some button is held, with the stored count and no button |
| X11Properties.ReleaseReport | src/x11/input_hook.c:699-735 | A release clicks exactly if not consumed and the most recent motion, if any, was no drag |
| X11Properties.PressCount | src/x11/input_hook.c:573-601 | On 32-bit server times the count of a press of buttons 1 to 5 is the longest chain of presses ending there at true times, capped at 65535, in spite of the resets (any button: the tally), for every run whose measured times are readable in the sense of ElapsedCompares |
| X11Properties.StoredCount | src/x11/input_hook.c:737-747 | The count other events report is that tally, or 0 exactly once a motion or release of the button came too late, also after wheel turns and unnumbered presses |
| X11Properties.ElapsedCompares | src/x11/input_hook.c:573-574 | The comparison of the recorded 32-bit times with the multi-click time is right exactly if the counter has not wrapped in between, the true gap is within that time, or the recorded times are still further apart |
| X11Properties.WrapCountsDouble | src/x11/input_hook.c:573-590 | Otherwise a press long after another counts as a double click |
| X11Properties.TypedTextDecodes | src/x11/input_hook.c:300-383 | The typed text decodes to exactly the scalar values among the codes of the unconsumed presses |
| X11Properties.NulTyped | src/x11/input_helper.c:1677-1682 | A press without a character, unless consumed, is followed by a typed U+0000 |
| ClickHistory.ChainIsLongest | src/x11/input_hook.c:573-587 | The chain length is maximal: exactly the lengths up to it are chains of near presses of one button without a wheel turn between |
| ClickHistory.TallyIsChain | src/x11/input_hook.c:573-587 | For histories that end with a press of a numbered button the tally is the chain |
| ClickHistory.PressAgrees | src/windows/input_hook.c:291-308 | A press keeps counter and history in agreement, and counts its chain |
| ClickHistory.IdleAgrees | src/windows/input_hook.c:379-395 | The resets to 0 on release and motion are invisible to later presses |
| WindowsHook.Hook.ProcessKeyPressed | src/windows/input_hook.c:165-222 | New statics and events of a key press |
| WindowsHook.Hook.ProcessKeyReleased | src/windows/input_hook.c:224-254 | New statics and event of a key release |
| WindowsHook.Hook.ProcessButtonPressed | src/windows/input_hook.c:288-333 | New statics and event of a press |
| WindowsHook.Hook.ProcessButtonReleased | src/windows/input_hook.c:335-384 | New statics and events of a release |
| WindowsHook.Hook.ProcessMouseMoved | src/windows/input_hook.c:386-425 | New statics and event, if any, of a move |
| WindowsHook.Hook.ProcessMouseWheel | src/windows/input_hook.c:427-478 | New statics and event of a wheel turn, or the give-up when the setting cannot be read |
| WindowsHook.Hook.HookProc | src/windows/input_hook.c:256-592 | New statics and events of any hooked event; it is swallowed exactly if it may be and the reserved field is 1 |
| WindowsHook.Hook.StatusProc | src/windows/input_hook.c:129-163 | Start and stop with their sign-extended 64-bit times, and the restart that re-reads the modifiers |
| WindowsHook.Hook.ProcessAll | src/windows/input_hook.c:165-592 | Over a whole session statics, trace and reserved field are the functions of the history |
| WindowsProperties.MaskIsHistory | src/windows/input_hook.c:165-238 | Each mask bit is set exactly if the latest event that acts on it set it |
| WindowsProperties.ExtraButtonSetsMeta | src/windows/input_hook.c:506-518 | A press of extra button 4 sets MetaL though the Windows key was never pressed |
| WindowsProperties.KeyBitTruth | src/windows/input_hook.c:165-557 | A keyboard bit tells whether its key is held exactly if the last event that acts on it is no button, or a button that went the way the key is; for bits other than MetaL and ShiftL always |
| WindowsProperties.NumbersAgree | src/windows/input_hook.c:506-557 | A button goes down and comes up under the same number exactly unless it is an extra button other than 1, 2 and 5 |
| WindowsProperties.ButtonReport | src/windows/input_hook.c:480-557 | A press is one event and a release one or two, under 1, 2, 3 for left, right, middle and 4, 5 for the two X buttons; a further extra button goes down under its own number and comes up as 5 |
| WindowsProperties.EmittedStamp | src/windows/input_hook.c:179-184 | Every event dispatched for a hooked event carries the 32-bit time and that mask; start and stop carry their own time and an empty mask |
| WindowsProperties.StatusClock | src/windows/input_hook.c:134-150 | The time of a start or stop is the tick count exactly below 2^31, and 2^64 - 2^32 more from there on |
| WindowsProperties.EmittedKinds | src/windows/input_hook.c:129-478 | A native event leads to events of its own kinds only, at its own point, and to none exactly if it is unhandled, a restart, a move at the pressed point, or a wheel turn whose setting cannot be read |
| WindowsProperties.KeyDownReport | src/windows/input_hook.c:179-221 | A key press is reported with its codes, followed by its text exactly if not consumed |
| WindowsProperties.KeyUpReport | src/windows/input_hook.c:238-254 | A key release is reported by one event with its codes |
| WindowsProperties.ReleaseReport | src/windows/input_hook.c:335-377 | A release clicks exactly if not consumed and at the point of the most recent press |
| WindowsProperties.MoveReport | src/windows/input_hook.c:386-424 | A move is reported exactly if it leaves the point of the most recent press, as a drag exactly while a button is held |
| WindowsProperties.SwallowedIffConsumed | src/windows/input_hook.c:583-591 | A native event that dispatches is swallowed exactly if it may be and its last event was consumed |
| WindowsProperties.SwallowedWithoutDispatch | src/windows/input_hook.c:276-284 | One that dispatches nothing is swallowed exactly if the latest event that decided was consumed |
| WindowsProperties.GivenUpTurnSwallowed | src/windows/input_hook.c:473-477 | A wheel turn whose setting cannot be read dispatches nothing and is swallowed exactly if it may be |
| WindowsProperties.UnseenMoveSwallowed | src/windows/input_hook.c:583-591 | A move the client never saw can be swallowed |
| WindowsProperties.ElapsedCompares | src/windows/input_hook.c:292 | The 32-bit comparison with the multi-click time is right exactly for the gaps below 2^31 ms and those whose low 32 bits still read as positive and above the limit |
| WindowsProperties.PressCount | src/windows/input_hook.c:288-323 | On wrapping 32-bit times the count of a press is the longest chain at true times (any button: the tally), for every run whose measured gaps are readable in that sense |
| WindowsProperties.StoredCount | src/windows/input_hook.c:379-395 | The count other events report is the tally of the history, or 0 exactly once it has lapsed, also after wheel turns and unnumbered presses |
| WindowsProperties.WrapCountsDouble | src/windows/input_hook.c:291-308 | Beyond that bound two presses a whole turn of the tick counter apart count as a double click |
| WindowsProperties.WheelReport | src/windows/input_hook.c:427-477 | A turn is reported exactly if the setting can be read: a page as one block, else that many units |
| WindowsProperties.WheelConserved | src/windows/input_hook.c:427-478 | Over every session the dispatched and the lost rotations account for everything turned on an axis, up to a residual below one notch, exactly for safe deltas and modulo 2^16 for any; the dispatched ones alone do exactly if nothing was lost, and nothing is lost while the setting can be read |
| WindowsProperties.GivenUpTurnLost | src/windows/input_hook.c:427-478 | A turn whose setting cannot be read leaves no rotation behind, dispatched or kept |
| WheelAccumulator.Accumulator.GetRotation | src/windows/input_helper.c:356-376 | Reported rotation and new residual of one turn |
| WheelAccumulator.Conservation | src/windows/input_helper.c:352-376 | For every interleaving: turned equals 120 times reported plus a residual below 120, exactly for deltas in -32649..32648 and modulo 2^16 for any deltas |
| WheelAccumulator.RoundsTowardZero | src/windows/input_helper.c:356-376 | The rotation is the whole notches, rounded toward zero, of residual plus delta in 16 bits, vertical ones with the sign reversed; the rest is kept; the other axis is untouched |
| WheelAccumulator.NeverAhead | src/windows/input_helper.c:352-376 | Over any run that turns an axis one way, what was reported never exceeds what was turned and lags by less than a notch |
| WheelAccumulator.AxesIndependent | src/windows/input_helper.c:365-373 | Turns of one axis do not influence the other |
| Utf16.KeycodeToUnicode | src/x11/input_helper.c:1673-1693 | For every buffer: it receives the encoding, or nothing if empty, and nothing else changes; not ok exactly if a pair would be written past the end |
| Utf16.BitwiseForm | src/x11/input_helper.c:1684-1686 | On machine words the shifts, masks and ors are the arithmetic of the model |
| Utf16.EncodeShape | src/x11/input_helper.c:1679-1689 | One unit, a surrogate pair that joins to the code, or nothing exactly for non-scalars |
| Utf16.RoundTrip | src/x11/input_helper.c:1673-1693 | Whatever codes are encoded, decoding gives exactly the scalar values among them |
| KeysymTable.BitwiseForm | src/x11/input_helper.c:1477-1524 | On machine words tagging, tag test and extraction are the arithmetic of the model |
| KeysymTable.UnicodeToKeysym | src/x11/input_helper.c:1450-1478 | The loop computes the specified keysym on any table |
| KeysymTable.KeysymKinds | src/x11/input_helper.c:1455-1477 | On any table the result is Latin-1 itself, the keysym of a real pair of that character, or the tagged value |
| KeysymTable.Latin1Kept | src/x11/input_helper.c:1455-1477 | Exactly 0x20 to 0x7E and 0xA0 to 0xFF stand for themselves both ways; any other character becomes a listed keysym or is tagged with 0x01000000 |
| KeysymTable.OtherKeysyms | src/x11/input_helper.c:1497-1550 | Any other 32-bit keysym yields its low 16 bits from 0x01000000 to 0x01FFFFFF, and else what the table lists |
| KeysymTable.FindUnicode | src/x11/input_helper.c:1463-1474 | The loop terminates, stays in bounds and computes the bisection of the unsorted column |
| KeysymTable.FindKeysym | src/x11/input_helper.c:1531-1546 | The loop computes the bisection |
| KeysymTable.SearchRefinesLookup | src/x11/input_helper.c:1531-1549 | On every strictly sorted table the bisection hits exactly if the keysym is present, with that pair's character |
| KeysymTable.KeysymToUnicode | src/x11/input_helper.c:1497-1550 | Writes the character if there is one and room, and nothing else |
| KeysymTable.RoundTrip | src/x11/input_helper.c:1450-1550 | Every 16-bit code survives the way to a keysym and back, for every table well formed as documented |
| KeysymTable.SortedUnicodeHits | src/x11/input_helper.c:1463-1474 | With a sorted Unicode column every listed character is found |
| KeysymTable.BisectFindsIff | src/x11/input_helper.c:1463-1474 | In any column the search for what a row holds ends at that row exactly if every row compared on the way, a set given by positions alone, is on the right side of it |
| KeysymTable.RowFoundIff | src/x11/input_helper.c:1455-1474 | In every well-formed table a row is what its character converts to exactly if that is not Latin-1 and the rows on the way are ordered |
| KeysymTable.TaggedIff | src/x11/input_helper.c:1455-1477 | A character converts to a tagged keysym exactly if it is not Latin-1 and no row listing it has ordered rows on the way |
| KeysymTable.AllListedFoundIffSorted | src/x11/input_helper.c:1463-1474 | In every well-formed table every row is found exactly if the Unicode column is strictly sorted and lists no Latin-1 character |
| KeysymTable.BisectNeedsSorted | src/x11/input_helper.c:1463-1474 | A bisection that finds every element of a column at its place has a strictly sorted column |
| KeysymTable.ListedCharacterMissed | src/x11/input_helper.c:659-1037 | In the source's own table, given by the ten rows that matter, a listed character is missed |
| KeysymTable.DirectUcs | src/x11/input_helper.c:1522-1528 | A direct UCS keysym yields its character exactly if that fits 16 bits |
| RunloopHandshake.ReachableInv | src/darwin/input_hook.c:271-347 | The invariant holds in every state any interleaving reaches |
| RunloopHandshake.ReadsAreFaithful | src/darwin/input_hook.c:272-347 | Whenever the hook thread touches the message no lookup is running; what it reads is this key's lookup if that was waited for, and else nothing; the wait was ended by the exit observer only if that has fired |
| RunloopHandshake.LogIsFaithful | src/darwin/input_hook.c:272-347 | Over every run keys are read once each, in order, each with its own lookup, or with nothing because for that very key the main loop had no mode or the exit observer ended the wait |
| RunloopHandshake.EveryKeyAnswered | src/darwin/input_hook.c:272-347 | Over every run that begins by entering the main loop, until its exit observer fires every key is read with the characters of its own lookup |
| RunloopHandshake.WakeupApproaches | src/darwin/input_hook.c:288-322 | While the hook thread waits a broadcast is due, the main thread can step, and every such step wakes it or brings the broadcast nearer |
| RunloopHandshake.SleepIsBounded | src/darwin/input_hook.c:1018-1040 | However a run goes on, the hook thread sleeps through at most four productive steps of the main thread |
| RunloopHandshake.NoDeadlock | src/darwin/input_hook.c:288-322 | While a key is in progress some thread can step |
| RunloopHandshake.LingeringModeLosesWakeup | src/darwin/input_hook.c:288-313 | If the main loop still had a mode after its exit observer, a run ends with the hook thread asleep, no broadcast due and no thread able to step |
| RunloopHandshake.NoLostWakeupIffModeEnds | src/darwin/input_hook.c:288-322 | No reachable state loses a wakeup exactly if the main loop has no mode before it is entered and none after it is left |
| PostEvent.ScaleFits | src/windows/post_event.c:68-72 | Scaling a 16-bit coordinate stays in 32 bits except at one corner |
| PostEvent.ScaleRecovers | src/windows/post_event.c:68-72 | Truncating result times size over 65536 gives the coordinate back |
| PostEvent.ScaleIncreases | src/windows/post_event.c:68-72 | Scaling is strictly increasing |
| PostEvent.ScaleInside | src/windows/post_event.c:68-72 | A coordinate scales to 0..65535 exactly if it is inside the screen and not 0, which scales to -1 |
| PostEvent.FlagExtended | src/windows/post_event.c:99-105 | The extended-key loop flags a key exactly if it is Up |
| PostEvent.Poster.MapKeyboardEvent | src/windows/post_event.c:74-110 | A key press or release becomes its own key input, and fails exactly if the key has no code |
| PostEvent.Poster.MapMouseEvent | src/windows/post_event.c:112-204 | Inputs and the kind the event is left with |
| PostEvent.Poster.HookPostEvent | src/windows/post_event.c:206-248 | Posting any event terminates, two calls deep at most, and sends exactly the inputs of the event; not ok, and nothing sent, exactly where it divides by a screen size of zero |
| PostEvent.Poster.PostAll | src/windows/post_event.c:206-248 | Posting a sequence of events sends the inputs of all of them in order, exactly if none divides by zero |
| PostEvent.PostedAsAsked | src/windows/post_event.c:74-204 | Read by what Windows does on them, the inputs of any event are what it asks for: a move, a move and the event's own button put down or up, its key put down or up, or a turn of 120 times amount times rotation, exactly unless that overflows 32 bits |
| PostEvent.PostedData | src/windows/post_event.c:99-176 | Mouse data only for extra buttons and the wheel, and the extended flag only for Up |
| PostEvent.ButtonsFollowMoves | src/windows/post_event.c:125-182 | Whatever is posted, every button input comes directly after the move to its own position |
| PostEvent.PostedAtPosition | src/windows/post_event.c:122-123 | Every mouse input stands for the position by the mouse view of the event, which is the event's own exactly if it is no wheel event or one whose x, y and type word are equal |
| PostEvent.WheelViews | include/uiohook.h:98-116 | The wheel view of the union gives back the x, y and type filled in, whatever the padding |
| PostEvent.WheelMisplaced | src/windows/post_event.c:122-123 | A posted wheel event carries its y and type for a position |
| PostEvent.ButtonInputsDistinct | src/windows/post_event.c:127-176 | The button input tells which button went down or up |
| PostEvent.RepostedRelease | src/windows/post_event.c:178-182 | The event is restored exactly unless it is a release with a button, which posted again sends a press |

## Left out

- Scancode and keycode tables: finite data; the translators receive the scancode of a key.
- Dead-key composition and the walking of layout tables (`src/windows/input_helper.c:728-866`), and the dead-key reset on selection: they depend on foreign memory layout; a Windows key press carries its text.
- The layout of the locale item's library tables: loading a layout is an oracle with four outcomes.
- Darwin mouse and modifier translation, and the dispatch queue path of the Darwin key press: the handshake covers the signalled-source path.
- initialize_modifiers on all platforms: the starting mask is arbitrary.
- The correction of X11 positions by the origin of the first screen: native positions are taken as corrected.
- The build of the X11 hook without xkbcommon: a key press carries the UTF-32 code that xkbcommon reports; the keysym conversion of the other build is modelled on its own.
- Failure of calloc and SendInput while posting.
- PostEvent.Poster.HookPostEvent: the virtual key comes with the event instead of from the scancode table, and wheel data overflowing 32 bits wraps.
- RunloopHandshake.SleepIsBounded: counts steps of the main thread; that the scheduler lets it run is not modelled, nor are spurious wakeups or a main loop entered twice.
- LocaleCacheProperties.LibrariesReturned: assumes layout lists without duplicates, as do the other laws about distinct ids.
- X11Properties.PressCount: assumes true times that do not decrease, a fixed multi-click time, as the multi-click law presupposes, and a 64-bit long.
- X11 and Darwin event posting, system properties, the logger, the demos and the XRecord asynchronous loop: thin wrappers or sample code.
