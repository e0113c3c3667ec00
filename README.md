# Doorbell Morse unlock — a verified Dafny model

This project models the button-sequence ("Morse") unlock logic of the
BigClown doorbell firmware (`app/list.h`, `app/list.c`, `app/application.c`).
A visitor taps a code on the doorbell button: short presses (clicks) and long
presses (holds). The firmware keeps the latest presses in a history list and
compares the history with the configured pattern. When they match, the
firmware opens the door and clears the history.

The model has four modules.

- `EventList` (`list.dfy`) models `list_t`, the circular doubly linked list of
  `list_node_t` records. `List` is a class over `Node` objects with the
  source's own `head` and `length` fields.
  - The ghost sequences `nodes` (the ring in order from `head`) and `elems`
    (the `(when, isLong)` payloads) give the abstract view. `Repr` holds the
    footprint.
  - `Valid()` states that the nodes are distinct and form a ring in both
    directions. It also states that `length` counts them and that `head` is
    null exactly when the list is empty.
  - The add, delete and clear operations are methods that rewire
    `next`/`prev` in place, branch for branch as in C. Their contracts state
    the new abstract contents.
- `Matcher` (`matcher.dfy`) models `list_compare`. `Matches` states what the
  loop computes. `Compare` is the pointer walk, proved to return exactly
  `Matches`. Lemmas compare `Matches` with the full comparison `FullMatch`.
- `SequenceParser` (`parser.dfy`) models the text-to-pattern step of
  `initialize_sequence`. It also models that step's scanning loop as a step
  function, to show where the loop terminates.
- `Doorbell` (`doorbell.dfy`) models the controller.
  - `Controller` holds the two lists, the hold flag, the press-start tick,
    the stored sequence text and the window. Its methods are
    `doorbellButton_event_handler`, `initialize_sequence` and
    `set_sequence_handler`.
  - Each call of the button handler is proved equal to the pure transition
    `OnButton` on the abstract `Machine` state. The lemmas about the unlock
    behaviour are stated over `OnButton` and its iteration `Run`.
  - `InitializeSequence` is proved to replace the pattern list by `Parse` of
    the text and to leave the history alone. `SetSequence` is proved to store
    the 63-character truncation of the new text, to replace the pattern by its
    parse, and to leave the history, the hold flag, the press tick and the
    window unchanged.

Tick arithmetic is modelled explicitly:

- `bc_tick_t` is an unsigned 64-bit value.
- The add operations take the timestamp as a 32-bit `int`. The handler passes
  `bc_tick_get()` there, so a tick is cut to its low 32 bits, read as signed
  (`ToCInt`), then stored modulo 2^64 (`Narrow`).
- `list_compare` subtracts ticks modulo 2^64 (`Elapsed`).

In four places the code does not do what its comments and names suggest
was intended; the model follows the code:

- **Unknown characters.** The `continue` on characters other than `.` and
  `-` evidently means to skip them. In the code, the `continue` skips the increment, so
  the loop never ends. `initialize_sequence` therefore requires a well-formed
  text, and `ScanStuckAt` shows that the loop never ends otherwise.
- **The last position.** `list_compare` is documented as comparing the
  pattern with the history of presses, all within `timespan` of the first
  (app/list.c:174-176). In the code, the loop stops at the last pattern node, so the last
  symbol and its timing are never checked (`LastSymbolIgnored`,
  `WrongLastPressMatches`, `LateLastPressMatches`).
- **Empty pattern.** An empty sequence would naturally be matched by any
  history. In the code, `list_compare` dereferences the NULL head of an empty pattern.
  Here this is a precondition: `Compare` requires a non-empty pattern when
  both lists are present, and `Handles` requires one when a press is
  recorded.
- **Reconfiguration.** The trim keeps the history no longer than the pattern
  (app/application.c:143-147), but this bound `|history| <= |pattern|` holds
  only until a shorter sequence is configured. The history is not
  cleared then, and one trim per press never shrinks it again
  (`StaleHistoryKeepsLength`, `StaleHistoryRejectsCode`).

## Model

| member | source | states |
|---|---|---|
| EventList.Narrow | app/list.c:18 | the `int` timestamp becomes a tick congruent to it modulo 2^64, and a non-negative value is stored unchanged |
| EventList.RemoveAt | app/list.c:81-127 | dropping position k keeps the remaining nodes distinct and their payloads in order |
| EventList.List.constructor | app/list.c:3-6 | `list_init` gives a valid empty list: head null, length 0, no entries |
| EventList.List.AddFirst | app/list.c:9-42 | the new entry (timestamp narrowed) becomes the first one, the old entries follow in order, one fresh node is added and the list stays valid |
| EventList.List.AddLast | app/list.c:44-79 | the new entry is appended after the old entries, which keep their order; the head is unchanged unless the list was empty; the list stays valid |
| EventList.List.SplicedValid | app/list.c:56-78 | linking a new node between the last node and the head, then making it the head or the last node, restores the ring invariant |
| EventList.List.DeleteNode | app/list.c:81-127 | a no-op on an empty list or a NULL node; otherwise exactly position k disappears, the rest keep their order, the head moves to the successor when it was deleted, and deleting the sole node empties the list |
| EventList.List.UnlinkedValid | app/list.c:96-126 | relinking the neighbours of the deleted node around it, dropping it from the sequences and decrementing length restores the ring invariant |
| EventList.List.DeleteFirst | app/list.c:129-132 | drops the oldest entry; a no-op on an empty list |
| EventList.List.DeleteLast | app/list.c:134-137 | drops the newest entry and keeps the head; a no-op on an empty list |
| EventList.List.Clear | app/list.c:139-157 | deleting the head `length` times leaves the empty list, with head null and length 0 |
| EventList.List.LinksAgree | app/list.h:6-12 | in a valid list every node has non-null links with `next->prev` and `prev->next` the node itself |
| EventList.List.RingModular | app/list.h:10-11 | node i links to node (i+1) mod n and node (i-1+n) mod n |
| EventList.List.FollowWalksRing | app/list.h:15-19 | following `next` from the head s times (0 < s <= n) reaches node s, wrapping back to the head at n |
| EventList.List.LengthCountsRing | app/list.h:15-19 | head is null exactly when length is 0, and following `next` returns to the head after exactly `length` steps and not before |
| Matcher.Elapsed | app/list.c:201 | the unsigned tick difference is the true difference when non-negative and the difference plus 2^64 when negative |
| Matcher.Compare | app/list.c:177-211 | the result is true exactly when both lists are present and the pattern is no longer than the input, and each of the first |pattern|-1 positions has the same short/long flag and lies within the window from the first press |
| Matcher.MatchesIsFullMatchOfAllButLast | app/list.c:192-208 | the comparison as written is the full comparison of the pattern without its last symbol, plus the length check |
| Matcher.FullMatchImpliesMatches | app/list.c:192-208 | a history matching every pattern position passes the comparison as written |
| Matcher.LastSymbolIgnored | app/list.c:192 | replacing the last pattern symbol by anything never changes the verdict |
| Matcher.SingleSymbolMatchesAnyHistory | app/list.c:183-192 | a one-symbol pattern is matched by every non-empty history |
| Matcher.WrongLastPressMatches | app/list.c:192-199 | with the pattern ".-.", the presses short, long, long match although the last press has the wrong kind |
| Matcher.LateLastPressMatches | app/list.c:192-204 | the window is not enforced on the last press |
| Matcher.LateMiddlePressFails | app/list.c:201-204 | the window is enforced on the presses before the last |
| Matcher.EarlierStampIsOutOfWindow | app/list.c:201 | a press stamped before the first one wraps to a huge difference and is outside any window shorter than that |
| SequenceParser.Parse | app/application.c:208-222 | the pattern has one entry per character, stamped 0, long exactly for '-' |
| SequenceParser.Render | app/list.c:169 | the text form of a pattern, the inverse of `Parse`: one character per entry, only '.' and '-', with '-' exactly for long entries, the symbol choice `list_print` uses |
| SequenceParser.RenderParse | app/application.c:217-218 | printing the parse of a well-formed text gives the text back |
| SequenceParser.ParseRender | app/application.c:217-218 | parsing the printout of a pattern stamped 0 gives the pattern back |
| SequenceParser.ParsePrefix | app/application.c:217-220 | each pass of the loop appends exactly the entry of the current character |
| SequenceParser.ScanIndex | app/application.c:212-221 | the index never passes the terminator |
| SequenceParser.ScanTerminates | app/application.c:212-221 | on a well-formed text the index after p passes is min(p, length) |
| SequenceParser.ScanStuckAt | app/application.c:213-215 | on any other character the index stays at or before it for any number of passes |
| SequenceParser.ScanTerminatesIff | app/application.c:212-221 | the loop reaches the terminator exactly on well-formed texts |
| Doorbell.ToCInt | app/application.c:99 | the tick becomes a 32-bit `int` congruent to it modulo 2^32, unchanged up to `INT_MAX` |
| Doorbell.Stamp | app/application.c:137 | the stored press time is a tick and equals the current tick up to `INT_MAX` |
| Doorbell.Truncate | app/application.c:248 | at most 63 characters are kept, as a prefix; shorter texts are kept whole |
| Doorbell.RecordedPressIsTrimmedIn | app/application.c:84-161 | a click, or a release after a hold, appends an entry stamped with the event's tick, long exactly for the release, and trims once; the door opens exactly when that window is as long as the pattern and matches it, and the history is then empty, otherwise it is the window |
| Doorbell.TrimKeepsLatest | app/application.c:144-147 | the window is a suffix of the history, one entry shorter exactly when the history was longer than the pattern and otherwise the whole history; a history at most one longer than the pattern ends within the pattern's length |
| Doorbell.Run | app/application.c:80-162 | a run of events keeps the pattern and the window and opens the door at most once per event |
| Doorbell.HandlerFlags | app/application.c:102-124 | a press clears the hold flag and records its tick, a hold sets the flag, a click or a release leaves both |
| Doorbell.IgnoredEventKeepsHistory | app/application.c:82-142 | a press, a hold or a release without hold neither opens the door nor changes the history |
| Doorbell.OnButtonKeepsBound | app/application.c:142-147 | a history no longer than the pattern stays no longer than the pattern |
| Doorbell.OpensIffLatestPressesMatch | app/application.c:142-161 | within the bound, a recorded press opens the door exactly when the last |pattern| presses match; an opening empties the history, otherwise the history keeps the latest presses, the new one last |
| Doorbell.RunKeepsBound | app/application.c:142-147 | the history bound holds over any run of events |
| Doorbell.StaleHistoryKeepsLength | app/application.c:144-147 | a history longer than the pattern keeps its length until the door opens |
| Doorbell.RunStaleHistory | app/application.c:244-253 | over a run without opening, a history left longer than the pattern by reconfiguration keeps its length |
| Doorbell.DefaultConfig | app/application.c:24-27 | the default configuration is the pattern short, long, short with a 30000 ms window |
| Doorbell.StampWrapsAtIntMax | app/application.c:99 | after 2^31 ms the stamp wraps to near 2^64, so two presses 1 ms apart across that instant are outside any realistic window |
| Doorbell.ShortPressRecords | app/application.c:84-100 | press, release, click records a single short entry at the click |
| Doorbell.LongPressRecords | app/application.c:102-140 | press, hold, release records a single long entry at the release |
| Doorbell.StaleShift | app/application.c:144-159 | on a history longer than the pattern, a press shifts the window by one, and a disagreeing oldest kept entry keeps the door shut |
| Doorbell.RunAppend | app/application.c:80-162 | running two batches of events in turn is running them joined, with the openings added |
| Doorbell.CodeOpensFromEmptyHistory | app/application.c:142-161 | with the default pattern and an empty history, entering short, long, short opens the door once and empties the history |
| Doorbell.StaleHistoryRejectsCode | app/application.c:244-253 | after a shortening reconfiguration with five stale presses, entering the right code does not open the door |
| Doorbell.Controller.constructor | app/application.c:287-292 | both lists start valid and disjoint, the history empty and the pattern parsed from the configured sequence |
| Doorbell.Controller.InitializeSequence | app/application.c:208-222 | the pattern list is replaced by the parse of the text and the history is untouched |
| Doorbell.Controller.SetSequence | app/application.c:244-253 | the stored text is the 63-character truncation, the pattern is its parse, and the history, flags and window are unchanged |
| Doorbell.Controller.ButtonEventHandler | app/application.c:80-162 | the new state and the door output are exactly those of `OnButton` on the old state |
| Doorbell.Controller.CheckHistory | app/application.c:142-161 | after the trim, the door opens exactly when the window is as long as the pattern and matches it; an opening empties the history, otherwise the trimmed window stays |
| Doorbell.Controller.TrimHistory | app/application.c:144-147 | the history becomes `Trim` of the old history; the pattern is untouched |

## Left out

- Allocation failure: `malloc` returning NULL (an add is then a no-op in C) is not modelled, because allocation in Dafny cannot fail.
- `free` is not modelled. A deleted node stays allocated but leaves `nodes` and is never reached again.
- NULL list pointers: `list_clear(NULL)` and the other operations on a NULL `list_t*` are not representable, because the methods are members of a `List` object. `list_compare` does take possibly-null lists.
- Matcher.Compare: requires a non-empty pattern when both lists are present. The source dereferences the NULL head of an empty pattern, which has no defined result.
- Doorbell.Controller.InitializeSequence: requires a text of only '.' and '-'. The source loops forever on any other character (`ScanStuckAt`).
- Doorbell.Controller.SetSequence: requires the truncated text to be well formed, for the same reason. The value is taken as a string without embedded NUL characters.
- Doorbell.Controller.ButtonEventHandler: requires a non-empty pattern when the event records a press, because otherwise `list_compare` dereferences a NULL head.
- LED and relay pulses (`open_door`), radio publishing and subscriptions, pairing and logging (`publish_sequence`, `trigger_door_handler`, `get_sequence_handler`, `list_print`) are I/O. A door opening is the boolean result of the handler.
- Persistence (`bc_config_init`, `bc_config_save`) is external storage. The controller takes the loaded configuration as its constructor argument.
- The published click and hold counters and the published hold duration exist only for the radio.
- `button_event_handler`, for the second button, only calls `open_door`.
- Battery and thermometer handlers are telemetry with floating point.
- Debouncing and the click/hold classification inside the button library are not modelled. The event kind and the current tick are inputs. `BUTTON_PRESS_THRESHOLD` is unused by the core.
- `bc_tick_get()` is an input parameter (`tick`) of the handler.
- The commented-out timeout handlers and the old `application_init`/`application_task` are dead code. The window is fixed at start-up.
- Concurrency: the handlers run on a single-threaded scheduler, so each call is modelled as atomic.
- Integer widths of the window and the length: the window (`sequenceTimeout`, the `timespan` argument) is a `bc_tick_t` in C but an unbounded `nat` here, and `list_t.length` is a C `int` but unbounded here. Every window the firmware configures fits 64 bits and no list comes near 2^31 nodes, so neither bound changes a result.
