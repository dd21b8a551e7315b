# Voice-controlled map display: command relay and visibility state machine

This project models the logic at the centre of the interactive map prototype in `code_4.py`.

- A background listener lowercases each transcript it gets from speech recognition. It scans a phrase table and writes the matching action into a single-slot mailbox.
- The display loop polls that mailbox once per tick. It also handles keyboard shortcuts and the close event, and shows or hides the map.

Modules:

- `Strings` (`strings.dfy`): Python's substring test `pat in text` (`Contains`) and `str.lower()` (`Lower`). `Contains` is proved equal to the window definition of a substring.
- `Commands` (`commands.dfy`): the actions and the table (`"afficher la carte"` shows, `"éteindre la carte"` hides). It also holds the outcome of one listen-and-transcribe attempt (`Timeout | Unrecognized | ServiceError | OtherError | Text`) and the specification functions for the mailbox:
  - `LastMatch` is the last matching entry in table order.
  - `SlotAfter` and `SlotAfterAll` give the slot after one attempt and after several.
  - `Matched`, `PassWrites` and `ListenerWrites` list the individual writes that a scan, a pass and a run of passes make. `LastWritten` gives the slot after a sequence of writes.
- `VoiceCommands` (`voice.dfy`): the class `VoiceCommandManager`. Its field `currentCommand` is the mailbox. Its methods are one locked write (`Store`), the table scan, one pass of the listening loop, several passes, and `GetCommand`, which reads and then clears the slot.
- `Display` (`display.dfy`): the class `MapDisplay`. It has the `isVisible` flag, which starts false, and `ShowMap` / `HideMap`.
- `App` (`app.dfy`): the body of `main`'s loop (`Tick`), the loop itself over a finite script of frames (`RunLoop`), and the whole program (`RunProgram`). Each is proved against the specification functions `TickVisible` and `RunSpec`. `Deliver` lands the listener's writes before a poll, one lock region at a time.

The listener takes the lock once for each write to the mailbox (`code_4.py:106-107`, `VoiceCommandManager.Store`). The display loop takes it once for each read-and-clear (`code_4.py:120-123`, `GetCommand`). Each of these locked regions is one sequential method. A scan makes one write per matching entry, and the manager's ghost field `written` records every write. A run of the display loop is a script of frames. Each frame holds the writes that land before that tick's poll, plus the tick's events. A frame boundary can therefore fall anywhere in the listener's sequence of writes, even between two writes of the same scan (`App.PollBetweenWritesOfOneScan`).

The scan at `code_4.py:104-108` has no `break`. Every match writes, and the last matching entry in table order remains (`Commands.BothTriggersLastEntryWins`).

## Model

| member | source | states |
|---|---|---|
| Strings.ContainsIffOccurs | code_4.py:105 | `command_text in text` holds exactly when some window of the transcript equals the trigger (both directions) |
| Strings.ContainsBetween | code_4.py:105 | a trigger placed anywhere inside a transcript is found |
| Strings.MissingFirstChar | code_4.py:105 | a trigger whose first character does not appear in the transcript is not found |
| Strings.Contains | code_4.py:105 | `command_text in text`: the empty trigger occurs in every transcript, and a trigger that occurs is no longer than the transcript; its exact meaning is `ContainsIffOccurs` |
| Strings.LowerChar | code_4.py:101 | lowercasing changes exactly the capitals it covers (ASCII and Latin-1) and never yields a capital |
| Strings.Lower | code_4.py:101 | `str.lower()` character by character, keeping the length; Python differs for characters such as 'İ', which lowercases to two characters |
| Strings.LowerConcat | code_4.py:101 | lowercasing a concatenation lowercases each piece |
| Strings.LowerIdempotent | code_4.py:101 | lowercasing an already lowercased transcript changes nothing |
| Strings.LowerOfLower | code_4.py:85-88 | a string without capitals, such as each trigger, is its own lowercase form |
| Commands.LastMatchNone | code_4.py:104-107 | the scan finds no action exactly when no trigger of the table occurs in the text |
| Commands.LastMatchIsLast | code_4.py:104-107 | when triggers occur, the action found is that of the last matching entry in table order |
| Commands.SilentAttemptsKeepSlot | code_4.py:96-116 | listening passes that produce no match, whether failures or transcripts without a trigger, leave the slot exactly as it was, empty or not |
| Commands.LatestWriteWins | code_4.py:104-107 | among passes before a poll, the most recent one that matched decides the slot; earlier writes are lost and later silent passes change nothing |
| Commands.ShowTriggerAnywhere | code_4.py:85-88 | a transcript whose lowercase form contains "afficher la carte" anywhere and not "éteindre la carte" puts show in the slot |
| Commands.HideTriggerWins | code_4.py:85-88 | whenever the lowercased transcript contains "éteindre la carte", the last table entry, hide is what the slot holds |
| Commands.ShowInsideSentence | code_4.py:101-107 | "je voudrais afficher la carte maintenant" puts show in the slot |
| Commands.ShowAfterAccentedWords | code_4.py:101-107 | "je préfère afficher la carte" puts show in the slot: accented words do not stop a match |
| Commands.HideCapitalised | code_4.py:101-107 | "Éteindre la carte" is lowercased before the scan and puts hide in the slot |
| Commands.BothTriggersLastEntryWins | code_4.py:104-107 | a transcript with both triggers leaves hide in the slot: no break, so the last match in table order wins |
| Commands.NoTriggerKeepsSlot | code_4.py:104-107 | "bonjour" leaves the slot as it was |
| Commands.SecondCommandOverwritesFirst | code_4.py:104-107 | show heard and then hide heard before one poll leaves hide: the slot overwrites, it does not queue |
| Commands.LastWrittenAppend | code_4.py:106-107 | writes in two batches leave what the second batch leaves on top of the first |
| Commands.MatchedEndsInLastMatch | code_4.py:104-107 | the writes of one scan, applied one lock region at a time, leave the last matching action, or the old slot when none match |
| Commands.MatchedActions | code_4.py:104-107 | an action is written by the scan exactly when some entry with that action has a trigger that occurs (both directions) |
| Commands.ListenerWritesAgree | code_4.py:96-116 | the listener's writes, one lock region at a time, leave the slot that the passes taken whole leave |
| Commands.BothTriggersWriteTwice | code_4.py:104-107 | a transcript with both triggers makes two writes, show and then hide |
| VoiceCommands.VoiceCommandManager.constructor | code_4.py:77-88 | a new manager has the two French triggers in insertion order and an empty slot |
| VoiceCommands.VoiceCommandManager.Store | code_4.py:106-107 | one locked write: the mailbox holds the action, overwriting what it held, and the write is recorded |
| VoiceCommands.VoiceCommandManager.RecordMatches | code_4.py:104-108 | the loop over the table writes the action of each matching entry in table order, so the slot ends as the last matching action, or as it was when nothing matches |
| VoiceCommands.VoiceCommandManager.Hear | code_4.py:99-116 | a transcript is lowercased and scanned; a wait timeout, unknown value, request error or other exception writes nothing and leaves the slot untouched |
| VoiceCommands.VoiceCommandManager.Listen | code_4.py:96-116 | successive passes of the listening loop make the writes `ListenerWrites` of their outcomes and leave the slot as `SlotAfterAll` |
| VoiceCommands.VoiceCommandManager.GetCommand | code_4.py:118-123 | returns the slot's value and leaves the slot empty, writing nothing |
| VoiceCommands.PollTwice | code_4.py:118-123 | a second poll with no write in between returns nothing |
| Display.MapDisplay.constructor | code_4.py:21-22 | the map starts hidden |
| Display.MapDisplay.ShowMap | code_4.py:44-47 | the map is visible afterwards, whatever it was, so showing is idempotent |
| Display.MapDisplay.HideMap | code_4.py:49-52 | the map is hidden afterwards, whatever it was, so hiding is idempotent |
| App.LastShortcutNone | code_4.py:145-152 | the events of a tick yield no shortcut exactly when none of them is Space or H |
| App.LastShortcutIsLast | code_4.py:145-152 | the shortcut that counts in a tick is the last Space or H pressed |
| App.VoiceOverridesKeys | code_4.py:156-163 | a polled command decides the visibility whatever keys the same tick pressed |
| App.ShortcutBypassesMailbox | code_4.py:149-152 | with an empty mailbox, the last shortcut key decides: Space shows and H hides |
| App.QuietTickKeepsVisibility | code_4.py:141-163 | a tick with no shortcut key and an empty mailbox leaves the visibility alone |
| App.Tick | code_4.py:141-163 | the loop goes on exactly when no event is a quit or Escape; keys are handled first, then the mailbox is polled once and left empty, and the visibility is `TickVisible` |
| App.Deliver | code_4.py:104-107 | the listener's writes that land before a poll, one lock region each, leave the last of them in the mailbox |
| App.RunLoop | code_4.py:137-167 | the first tick always runs, the loop stops right after the first tick with a quit event, the visibility and mailbox end as `RunSpec` of the frames that ran, and the writes delivered are the listener's, in order |
| App.RunProgram | code_4.py:125-167 | from a hidden map and an empty mailbox, the ticks that run and the final visibility are those of `RunSpec` |
| App.MailboxEmptyAfterRun | code_4.py:157 | after any tick the mailbox is empty |
| App.TickAfterPasses | code_4.py:96-163 | when whole listening passes land before a poll, the tick sees the slot those passes leave |
| App.SpokenShowShowsMap | code_4.py:101-161 | the spoken sentence with "afficher la carte" shows a hidden map at the next tick |
| App.SpokenHideHidesMap | code_4.py:101-163 | "éteindre la carte" hides a shown map at the next tick |
| App.UnrelatedSpeechChangesNothing | code_4.py:101-163 | "bonjour" leaves the map and the mailbox as they were |
| App.SpaceShowsWithEmptyMailbox | code_4.py:149-150 | the Space key shows the map with nothing in the mailbox |
| App.VoiceAfterKeyInSameTick | code_4.py:149-163 | Space and a heard "éteindre la carte" in one tick end with the map hidden, because the poll comes after the keys |
| App.PollBetweenWritesOfOneScan | code_4.py:104-123 | a poll between the two writes of "afficher la carte puis éteindre la carte" shows the map for one tick and hides it at the next |
| App.EventsAfterQuitStillHandled | code_4.py:142-152 | the event loop does not break on a quit: H pressed after the close event still hides the map in that last tick |

## Left out

- Threads and the lock. The listener thread, its daemon start (`start_listening`) and the mutex are not modelled. Each locked region is one atomic method. The frame script, split at any write, stands in for the interleavings.
- Microphone and speech recognition. `sr.Microphone`, `adjust_for_ambient_noise`, `listen` and `recognize_google` are foreign calls to hardware and a network service. The `Recognition` datatype replaces their outcome.
- Microphone failures outside the `try`. An exception in `adjust_for_ambient_noise` or in opening the microphone ends the listener thread. After that the mailbox receives nothing more, which any script can express by listing no further transcripts. It is not a separate state.
- The listener's `running` flag. Nothing ever sets it false, so the listening loop is modelled only as a sequence of passes.
- Strings.LowerChar: covers the capitals of ASCII and of the Latin-1 supplement only. Python's `str.lower()` also maps other Unicode letters (for example Œ and Greek and Cyrillic capitals), which this model leaves unchanged.
- Strings.Lower: keeps the length of the string. Python's `str.lower()` turns a few characters into two (for example 'İ'), which this model does not do.
- The command strings. The source stores the strings `"show_map"` and `"hide_map"` in the slot and tests `if command:` and then compares them. The table holds only these two values, so they are the enumeration `Action`, and an empty slot is `None`.
- Rendering and UI: `create_dummy_map`, `draw`, the screen clear and flip inside `hide_map`, fonts, the `pygame_gui` manager's event forwarding and update, and the window size.
- Frame pacing: `clock.tick(60)` and the elapsed-time value it returns.
- Console output (`print`) and the outer `try`/`finally` with `pygame.quit()`.
- App.RunLoop: the script of frames is finite. A script may deliver any writes; the model does not require a frame's writes to come from transcripts, and `Commands.ListenerWrites` gives the writes a run of passes makes. When it runs out, the model stops, while the program would wait for further ticks.
