/**
 * The doorbell application's unlock logic: the button handler that records
 * short and long presses into the history, trims it to the pattern length,
 * compares it with the pattern and opens the door on a match; and the radio
 * handler that replaces the unlock sequence.
 */
module Doorbell {
  import opened EventList
  import opened Matcher
  import opened SequenceParser

  /** `SEQUENCE_MAX_DURATION`: the default time window of a sequence, in milliseconds. */
  const SEQUENCE_MAX_DURATION: nat := 30 * 1000
  /** `DEFAULT_SEQUENCE` */
  const DEFAULT_SEQUENCE: string := ".-."
  /** `sizeof(config.openDoorSequence)`, the terminator included. */
  const SEQUENCE_BUFFER_SIZE: nat := 64

  /** `config_t`: the unlock sequence text and the time window. */
  datatype Config = Config(openDoorSequence: string, sequenceTimeout: nat)

  /** `config_default` */
  const CONFIG_DEFAULT: Config := Config(DEFAULT_SEQUENCE, SEQUENCE_MAX_DURATION)

  /** The events the button library reports for the doorbell button. */
  datatype ButtonEvent = Press | Release | Click | Hold

  datatype Option<T> = None | Some(value: T)

  /**
   * `bc_tick_get()` passed to the `int when` parameter of `list_add_last`:
   * the 64-bit tick is cut to its low 32 bits, read as a signed `int`.
   */
  function ToCInt(tick: nat): (x: int)
    requires IsTick(tick)
    ensures IsCInt(x)
    ensures (x - tick) % 0x1_0000_0000 == 0
    ensures tick <= INT_MAX ==> x == tick
  {
    var low := tick % 0x1_0000_0000;
    if low <= INT_MAX then low else low - 0x1_0000_0000
  }

  /** The `when` a history node gets for a press reported at `tick`. */
  function Stamp(tick: nat): (when: nat)
    requires IsTick(tick)
    ensures IsTick(when)
    ensures tick <= INT_MAX ==> when == tick
  {
    Narrow(ToCInt(tick))
  }

  /** `snprintf(config.openDoorSequence, 64, "%s", value)`: at most 63 characters are kept. */
  function Truncate(text: string): (stored: string)
    ensures |stored| < SEQUENCE_BUFFER_SIZE
    ensures stored <= text
    ensures |text| < SEQUENCE_BUFFER_SIZE ==> stored == text
    ensures |text| >= SEQUENCE_BUFFER_SIZE ==> |stored| == SEQUENCE_BUFFER_SIZE - 1
  {
    if |text| < SEQUENCE_BUFFER_SIZE then text else text[..SEQUENCE_BUFFER_SIZE - 1]
  }

  /**
   * The state the button handler reads and writes: the history and pattern
   * contents, `button_hold_event`, `tick_start_button_press` and the
   * configured window.
   */
  datatype Machine = Machine(history: seq<Entry>, pattern: seq<Entry>, holdEvent: bool, pressStart: nat, timeout: nat)

  /** The state after an event, and whether the door was opened. */
  datatype Reaction = Reaction(next: Machine, doorOpened: bool)

  /** The history entry an event records, if any: a click is short, a release after a hold is long. */
  function Recorded(holdEvent: bool, event: ButtonEvent, tick: nat): (r: Option<Entry>)
    requires IsTick(tick)
    ensures r.Some? <==> event == Click || (event == Release && holdEvent)
    ensures r.Some? ==> r.value == Entry(Stamp(tick), event == Release)
  {
    match event
    case Click => Some(Entry(Stamp(tick), false))
    case Release => if holdEvent then Some(Entry(Stamp(tick), true)) else None
    case _ => None
  }

  /** The single-step trim: the oldest entry goes when the history is longer than the pattern. */
  function Trim(history: seq<Entry>, pattern: seq<Entry>): (window: seq<Entry>)
    ensures |history| > |pattern| ==> window == history[1..]
    ensures |history| <= |pattern| ==> window == history
  {
    if |history| > |pattern| then history[1..] else history
  }

  /**
   * What the trim promises: the window keeps the latest entries in order,
   * loses exactly one only when the history outgrew the pattern, and after
   * one append the pattern's bound holds again.
   */
  lemma TrimKeepsLatest(history: seq<Entry>, pattern: seq<Entry>)
    ensures var window := Trim(history, pattern);
            && |window| == (if |history| > |pattern| then |history| - 1 else |history|)
            && window == history[|history| - |window|..]
            && (|history| <= |pattern| + 1 ==> |window| <= |pattern|)
  {
  }

  /** The events the handler can take without dereferencing the NULL head of an empty pattern. */
  predicate Handles(m: Machine, event: ButtonEvent, tick: nat)
  {
    IsTick(tick) && (Recorded(m.holdEvent, event, tick).Some? ==> m.pattern != [])
  }

  /** `doorbellButton_event_handler`, the part that concerns the unlock sequence. */
  function OnButton(m: Machine, event: ButtonEvent, tick: nat): Reaction
    requires Handles(m, event, tick)
  {
    var settled := match event
      case Press => m.(holdEvent := false, pressStart := tick)
      case Hold => m.(holdEvent := true)
      case _ => m;
    match Recorded(m.holdEvent, event, tick)
    case None => Reaction(settled, false)
    case Some(e) =>
      var window := Trim(m.history + [e], m.pattern);
      if |window| >= |m.pattern| && Matches(m.pattern, window, m.timeout) then
        Reaction(settled.(history := []), true)
      else
        Reaction(settled.(history := window), false)
  }

  /** The machine after running the handler on each event in turn, and how often the door opened. */
  function Run(m: Machine, events: seq<(ButtonEvent, nat)>): (r: (Machine, nat))
    requires m.pattern != []
    requires forall k :: 0 <= k < |events| ==> IsTick(events[k].1)
    ensures r.0.pattern == m.pattern && r.0.timeout == m.timeout
    ensures r.1 <= |events|
    decreases |events|
  {
    if events == [] then (m, 0)
    else
      var r := OnButton(m, events[0].0, events[0].1);
      assert r.next.pattern == m.pattern;
      var rest := Run(r.next, events[1..]);
      (rest.0, rest.1 + if r.doorOpened then 1 else 0)
  }


  /** `min` on lengths. */
  function Min(a: nat, b: nat): nat { if a <= b then a else b }

  /**
   * `button_hold_event` and `tick_start_button_press`: a press clears the
   * hold flag and records its tick, a hold sets the flag, and the other
   * events leave both alone. The pattern and the window never change.
   */
  lemma HandlerFlags(m: Machine, event: ButtonEvent, tick: nat)
    requires Handles(m, event, tick)
    ensures var n := OnButton(m, event, tick).next;
            && n.pattern == m.pattern && n.timeout == m.timeout
            && (event == Press ==> !n.holdEvent && n.pressStart == tick)
            && (event == Hold ==> n.holdEvent && n.pressStart == m.pressStart)
            && (event == Click || event == Release ==> n.holdEvent == m.holdEvent && n.pressStart == m.pressStart)
  {
  }

  /**
   * A click, or a release after a hold, appends the entry stamped with the
   * event's tick (long exactly for the release) and trims once; the door
   * opens exactly when that window is long enough and matches, and then the
   * history is emptied.
   */
  lemma RecordedPressIsTrimmedIn(m: Machine, event: ButtonEvent, tick: nat)
    requires Handles(m, event, tick)
    requires event == Click || (event == Release && m.holdEvent)
    ensures var r, w := OnButton(m, event, tick), Trim(m.history + [Entry(Stamp(tick), event == Release)], m.pattern);
            && (r.doorOpened <==> |w| >= |m.pattern| && Matches(m.pattern, w, m.timeout))
            && r.next.history == (if r.doorOpened then [] else w)
  {
  }

  /** An event that records nothing (a press, a hold, a release without hold) neither opens nor touches the history. */
  lemma IgnoredEventKeepsHistory(m: Machine, event: ButtonEvent, tick: nat)
    requires Handles(m, event, tick)
    requires event == Press || event == Hold || (event == Release && !m.holdEvent)
    ensures !OnButton(m, event, tick).doorOpened
    ensures OnButton(m, event, tick).next.history == m.history
  {
  }

  /**
   * The handler keeps the history at most as long as the pattern: a new
   * entry makes it one longer, the trim takes one away.
   */
  lemma OnButtonKeepsBound(m: Machine, event: ButtonEvent, tick: nat)
    requires Handles(m, event, tick)
    requires |m.history| <= |m.pattern|
    ensures |OnButton(m, event, tick).next.history| <= |m.pattern|
  {
  }

  /**
   * While the history is within the bound, a recorded press opens the door
   * exactly when the last |pattern| presses, the new one included, match the
   * pattern; an opening empties the history, otherwise the history holds the
   * latest presses, the new one last, as many as fit the pattern.
   */
  lemma OpensIffLatestPressesMatch(m: Machine, event: ButtonEvent, tick: nat, e: Entry)
    requires Handles(m, event, tick)
    requires Recorded(m.holdEvent, event, tick) == Some(e)
    requires |m.history| <= |m.pattern|
    ensures var r, h := OnButton(m, event, tick), m.history + [e];
            && (r.doorOpened <==> |h| >= |m.pattern| && Matches(m.pattern, h[|h| - |m.pattern|..], m.timeout))
            && (r.doorOpened ==> r.next.history == [])
            && (!r.doorOpened ==> |r.next.history| == Min(|h|, |m.pattern|)
                                  && r.next.history == h[|h| - |r.next.history|..]
                                  && r.next.history[|r.next.history| - 1] == e)
  {
    var h := m.history + [e];
    if |h| > |m.pattern| {
      assert h[1..] == h[|h| - |m.pattern|..];
    }
  }

  /** From a history within the bound, any run of events keeps it within the bound. */
  lemma {:induction false} RunKeepsBound(m: Machine, events: seq<(ButtonEvent, nat)>)
    requires m.pattern != []
    requires forall k :: 0 <= k < |events| ==> IsTick(events[k].1)
    requires |m.history| <= |m.pattern|
    ensures |Run(m, events).0.history| <= |m.pattern|
    decreases |events|
  {
    if events != [] {
      var r := OnButton(m, events[0].0, events[0].1);
      OnButtonKeepsBound(m, events[0].0, events[0].1);
      RunKeepsBound(r.next, events[1..]);
    }
  }

  /**
   * A history longer than the pattern, as `set_sequence_handler` leaves it
   * when the new sequence is shorter, never shrinks: each recorded press adds
   * one entry and the trim takes only one away, until the door opens.
   */
  lemma StaleHistoryKeepsLength(m: Machine, event: ButtonEvent, tick: nat)
    requires Handles(m, event, tick)
    requires |m.history| > |m.pattern|
    ensures var r := OnButton(m, event, tick);
            r.doorOpened || |r.next.history| == |m.history|
  {
  }

  /** Over a run in which the door does not open, a history longer than the pattern keeps its length. */
  lemma {:induction false} RunStaleHistory(m: Machine, events: seq<(ButtonEvent, nat)>)
    requires m.pattern != []
    requires forall k :: 0 <= k < |events| ==> IsTick(events[k].1)
    requires |m.history| > |m.pattern|
    ensures Run(m, events).1 == 0 ==> |Run(m, events).0.history| == |m.history|
    decreases |events|
  {
    if events != [] {
      var r := OnButton(m, events[0].0, events[0].1);
      StaleHistoryKeepsLength(m, events[0].0, events[0].1);
      if !r.doorOpened {
        RunStaleHistory(r.next, events[1..]);
      }
    }
  }

  /** The factory configuration: the pattern short, long, short and a 30 s window. */
  lemma DefaultConfig()
    ensures WellFormed(CONFIG_DEFAULT.openDoorSequence)
    ensures Parse(CONFIG_DEFAULT.openDoorSequence) == DEFAULT_PATTERN
    ensures CONFIG_DEFAULT.sequenceTimeout == 30000
  {
    var text := DEFAULT_SEQUENCE;
    ParsePrefix(text, 0);
    ParsePrefix(text, 1);
    ParsePrefix(text, 2);
    assert text[..0] == [] && text[..3] == text;
  }

  /**
   * After 2^31 ms (about 24.8 days) of uptime the stamp wraps: the tick is
   * cut to a negative `int` and comes back near 2^64, so two presses one
   * millisecond apart across that instant are further apart than any window
   * of at most 2^63 ms.
   */
  lemma StampWrapsAtIntMax(timespan: nat)
    requires timespan < 0x8000_0000_0000_0000
    ensures Stamp(INT_MAX) == INT_MAX
    ensures Stamp(INT_MAX + 1) == TICK_MOD - 0x8000_0000
    ensures Elapsed(Stamp(INT_MAX + 1), Stamp(INT_MAX)) > timespan
  {
  }


  /** `DEFAULT_SEQUENCE` as a pattern: short, long, short. */
  const DEFAULT_PATTERN: seq<Entry> := [Entry(0, false), Entry(0, true), Entry(0, false)]

  /** Entering a short press at `t`: the button reports press, release and click. */
  function ShortPress(t: nat): seq<(ButtonEvent, nat)>
  {
    [(Press, t), (Release, t + 50), (Click, t + 50)]
  }

  /** Entering a long press at `t`: the button reports press, hold and release. */
  function LongPress(t: nat): seq<(ButtonEvent, nat)>
  {
    [(Press, t), (Hold, t + 500), (Release, t + 600)]
  }

  /** The events of entering short, long, short. */
  const SHORT_LONG_SHORT: seq<(ButtonEvent, nat)> := ShortPress(1000) + LongPress(1100) + ShortPress(1800)

  /** A short press leaves the hold flag clear, and its click alone reaches the history. */
  lemma ShortPressRecords(m: Machine, t: nat)
    requires m.pattern != [] && IsTick(t + 50)
    ensures forall k :: 0 <= k < 3 ==> IsTick(ShortPress(t)[k].1)
    ensures var r := OnButton(m.(holdEvent := false, pressStart := t), Click, t + 50);
            Run(m, ShortPress(t)) == (r.next, if r.doorOpened then 1 else 0)
  {
    var s := ShortPress(t);
    var m1 := m.(holdEvent := false, pressStart := t);
    var r := OnButton(m1, Click, t + 50);
    var last: seq<(ButtonEvent, nat)> := [(Click, t + 50)];
    assert s[1..][1..] == last && last[1..] == [];
    assert Run(m1, last) == (r.next, if r.doorOpened then 1 else 0);
    assert Run(m1, s[1..]) == Run(m1, last);
  }

  /** A long press sets the hold flag, and its release reaches the history as a long entry. */
  lemma LongPressRecords(m: Machine, t: nat)
    requires m.pattern != [] && IsTick(t + 600)
    ensures forall k :: 0 <= k < 3 ==> IsTick(LongPress(t)[k].1)
    ensures var r := OnButton(m.(holdEvent := true, pressStart := t), Release, t + 600);
            Run(m, LongPress(t)) == (r.next, if r.doorOpened then 1 else 0)
  {
    var s := LongPress(t);
    var m1 := m.(holdEvent := true, pressStart := t);
    var r := OnButton(m1, Release, t + 600);
    var last: seq<(ButtonEvent, nat)> := [(Release, t + 600)];
    assert s[1..][1..] == last && last[1..] == [];
    assert Run(m1, last) == (r.next, if r.doorOpened then 1 else 0);
    assert Run(m.(holdEvent := false, pressStart := t), s[1..]) == Run(m1, last);
  }

  /**
   * On a history longer than the pattern, a recorded press only shifts the
   * window by one, and the verdict is taken at the oldest entries kept: when
   * the first of them disagrees with the pattern, the door stays shut.
   */
  lemma StaleShift(m: Machine, event: ButtonEvent, tick: nat, e: Entry)
    requires Handles(m, event, tick)
    requires Recorded(m.holdEvent, event, tick) == Some(e)
    requires 2 <= |m.pattern| < |m.history|
    requires !Agrees(m.pattern, m.history[1..] + [e], m.timeout, 0)
    ensures var r := OnButton(m, event, tick);
            && !r.doorOpened
            && r.next == m.(history := m.history[1..] + [e], holdEvent := r.next.holdEvent, pressStart := r.next.pressStart)
  {
    assert (m.history + [e])[1..] == m.history[1..] + [e];
  }

  /** With the default pattern and an empty history, entering the code opens the door once and empties the history. */
  lemma CodeOpensFromEmptyHistory()
    ensures WellFormed(DEFAULT_SEQUENCE)
    ensures var m := Machine([], Parse(DEFAULT_SEQUENCE), false, 0, SEQUENCE_MAX_DURATION);
            Run(m, SHORT_LONG_SHORT) == (m.(pressStart := 1800), 1)
  {
    DefaultConfig();
    var m0 := Machine([], DEFAULT_PATTERN, false, 0, SEQUENCE_MAX_DURATION);
    var m1 := m0.(history := [Entry(1050, false)], pressStart := 1000);
    var m2 := m1.(history := m1.history + [Entry(1700, true)], holdEvent := true, pressStart := 1100);
    ShortPressRecords(m0, 1000);
    assert OnButton(m0.(pressStart := 1000), Click, 1050) == Reaction(m1, false);
    LongPressRecords(m1, 1100);
    assert OnButton(m1.(holdEvent := true, pressStart := 1100), Release, 1700) == Reaction(m2, false);
    ShortPressRecords(m2, 1800);
    assert Matches(DEFAULT_PATTERN, m2.history + [Entry(1850, false)], SEQUENCE_MAX_DURATION);
    assert OnButton(m2.(holdEvent := false, pressStart := 1800), Click, 1850) == Reaction(m0.(pressStart := 1800), true);
    RunAppend(m0, ShortPress(1000), LongPress(1100));
    RunAppend(m0, ShortPress(1000) + LongPress(1100), ShortPress(1800));
  }

  /**
   * After the sequence was shortened to ".-." while five long presses were
   * in the history, entering the code does not open the door: the stale
   * entries stay in front and the comparison starts at them.
   */
  lemma StaleHistoryRejectsCode()
    ensures WellFormed(DEFAULT_SEQUENCE)
    ensures var stale := [Entry(0, true), Entry(100, true), Entry(200, true), Entry(300, true), Entry(400, true)];
            var m := Machine(stale, Parse(DEFAULT_SEQUENCE), false, 0, SEQUENCE_MAX_DURATION);
            Run(m, SHORT_LONG_SHORT).1 == 0 && |Run(m, SHORT_LONG_SHORT).0.history| == 5
  {
    DefaultConfig();
    var stale := [Entry(0, true), Entry(100, true), Entry(200, true), Entry(300, true), Entry(400, true)];
    var m0 := Machine(stale, DEFAULT_PATTERN, false, 0, SEQUENCE_MAX_DURATION);
    var m1 := m0.(history := stale[1..] + [Entry(1050, false)], pressStart := 1000);
    var m2 := m1.(history := m1.history[1..] + [Entry(1700, true)], holdEvent := true, pressStart := 1100);
    var m3 := m2.(history := m2.history[1..] + [Entry(1850, false)], holdEvent := false, pressStart := 1800);
    ShortPressRecords(m0, 1000);
    StaleShift(m0.(pressStart := 1000), Click, 1050, Entry(1050, false));
    LongPressRecords(m1, 1100);
    StaleShift(m1.(holdEvent := true, pressStart := 1100), Release, 1700, Entry(1700, true));
    ShortPressRecords(m2, 1800);
    StaleShift(m2.(holdEvent := false, pressStart := 1800), Click, 1850, Entry(1850, false));
    RunAppend(m0, ShortPress(1000), LongPress(1100));
    RunAppend(m0, ShortPress(1000) + LongPress(1100), ShortPress(1800));
  }

  /** Running two batches of events one after the other is running them joined. */
  lemma {:induction false} RunAppend(m: Machine, a: seq<(ButtonEvent, nat)>, b: seq<(ButtonEvent, nat)>)
    requires m.pattern != []
    requires forall k :: 0 <= k < |a| ==> IsTick(a[k].1)
    requires forall k :: 0 <= k < |b| ==> IsTick(b[k].1)
    ensures forall k :: 0 <= k < |a + b| ==> IsTick((a + b)[k].1)
    ensures var (mid, n1) := Run(m, a);
            var (final, n2) := Run(mid, b);
            Run(m, a + b) == (final, n1 + n2)
    decreases |a|
  {
    if a == [] {
      assert a + b == b;
    } else {
      var r := OnButton(m, a[0].0, a[0].1);
      assert (a + b)[0] == a[0] && (a + b)[1..] == a[1..] + b;
      RunAppend(r.next, a[1..], b);
    }
  }

  /**
   * The controller: the global `button_history` and `pattern` lists, the
   * hold flag, the press-start tick and the configuration.
   */
  class Controller {
    const history: List
    const pattern: List
    var holdEvent: bool
    var pressStart: nat
    /** `config.openDoorSequence` */
    var sequence: string
    /** `config.sequenceTimeout`; nothing changes it after start-up. */
    const timeout: nat

    /** Both lists are valid and share no node. */
    ghost predicate ListsValid()
      reads this, history, history.Repr, pattern, pattern.Repr
    {
      && history.Valid()
      && pattern.Valid()
      && history.Repr !! pattern.Repr
      && this !in history.Repr && this !in pattern.Repr
    }

    /** ... and the pattern is the parse of the stored sequence text. */
    ghost predicate Valid()
      reads this, history, history.Repr, pattern, pattern.Repr
    {
      && ListsValid()
      && |sequence| < SEQUENCE_BUFFER_SIZE
      && WellFormed(sequence)
      && pattern.elems == Parse(sequence)
    }

    ghost function State(): Machine
      reads this, history, pattern
    {
      Machine(history.elems, pattern.elems, holdEvent, pressStart, timeout)
    }

    /**
     * The sequence part of `application_init`: both lists initialised and
     * the pattern parsed from the loaded configuration.
     */
    constructor (config: Config)
      requires |config.openDoorSequence| < SEQUENCE_BUFFER_SIZE
      requires WellFormed(config.openDoorSequence)
      ensures Valid() && fresh(history.Repr) && fresh(pattern.Repr)
      ensures sequence == config.openDoorSequence
      ensures State() == Machine([], Parse(config.openDoorSequence), false, 0, config.sequenceTimeout)
    {
      history := new List();
      pattern := new List();
      holdEvent := false;
      pressStart := 0;
      sequence := config.openDoorSequence;
      timeout := config.sequenceTimeout;
      new;
      InitializeSequence(sequence);
    }

    /**
     * `initialize_sequence`: empties the pattern, then appends one entry per
     * character, long for '-' and short for '.'. On any other character the
     * source loops forever (see `ScanStuckAt`), so the text must be well formed.
     */
    method InitializeSequence(sample: string)
      requires ListsValid()
      requires WellFormed(sample)
      modifies pattern.Repr
      ensures ListsValid() && fresh(pattern.Repr - old(pattern.Repr))
      ensures pattern.elems == Parse(sample)
    {
      pattern.Clear();
      var i := 0;
      while i < |sample|
        invariant 0 <= i <= |sample|
        invariant ListsValid()
        invariant pattern.elems == Parse(sample[..i])
        invariant fresh(pattern.Repr - old(pattern.Repr))
      {
        var isLong := sample[i] == '-';
        pattern.AddLast(0, isLong);
        ParsePrefix(sample, i);
        i := i + 1;
      }
      assert sample[..i] == sample;
    }

    /**
     * `set_sequence_handler`: stores the received text truncated to the
     * buffer and re-parses the pattern from it. The history is left as it is.
     */
    method SetSequence(value: string)
      requires Valid()
      requires WellFormed(Truncate(value))
      modifies this, pattern.Repr
      ensures Valid() && fresh(pattern.Repr - old(pattern.Repr))
      ensures sequence == Truncate(value)
      ensures State() == old(State()).(pattern := Parse(Truncate(value)))
    {
      sequence := Truncate(value);
      InitializeSequence(sequence);
    }

    /**
     * `doorbellButton_event_handler`: records the press, trims the oldest
     * entry, compares and, on a match, opens the door and clears the history.
     */
    method ButtonEventHandler(event: ButtonEvent, tick: nat) returns (doorOpened: bool)
      requires Valid()
      requires Handles(State(), event, tick)
      modifies this, history.Repr
      ensures Valid() && fresh(history.Repr - old(history.Repr))
      ensures sequence == old(sequence)
      ensures State() == OnButton(old(State()), event, tick).next
      ensures doorOpened == OnButton(old(State()), event, tick).doorOpened
    {
      doorOpened := false;
      var itemAdded := false;
      if event == Click {
        history.AddLast(ToCInt(tick), false);
        itemAdded := true;
      } else if event == Hold {
        holdEvent := true;
      } else if event == Press {
        holdEvent := false;
        pressStart := tick;
      } else if event == Release {
        if holdEvent {
          history.AddLast(ToCInt(tick), true);
          itemAdded := true;
        }
      }

      if itemAdded {
        doorOpened := CheckHistory();
      }
    }

    /**
     * The tail of `doorbellButton_event_handler` once a press has been
     * appended: the history is trimmed, and a history as long as the pattern
     * that matches it opens the door and is cleared.
     */
    method CheckHistory() returns (doorOpened: bool)
      requires Valid() && pattern.elems != []
      modifies history.Repr
      ensures Valid() && history.Repr == old(history.Repr)
      ensures var window := Trim(old(history.elems), pattern.elems);
              && doorOpened == (|window| >= |pattern.elems| && Matches(pattern.elems, window, timeout))
              && history.elems == if doorOpened then [] else window
    {
      doorOpened := false;
      TrimHistory();
      if history.length >= pattern.length {
        var areSame := Compare(pattern, history, timeout);
        if areSame {
          doorOpened := true;
          history.Clear();
        }
      }
    }

    /** The trim step: the oldest entry goes when the history is longer than the pattern. */
    method TrimHistory()
      requires Valid()
      modifies history.Repr
      ensures Valid() && history.Repr == old(history.Repr)
      ensures history.elems == Trim(old(history.elems), pattern.elems)
    {
      if history.length > pattern.length {
        history.DeleteFirst();
      }
    }
  }
}
