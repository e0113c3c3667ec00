/**
 * `list_compare`: decides whether the press history matches the unlock
 * pattern. Both lists are walked in lock-step from their heads; a position
 * agrees when the short/long flags are equal and the press lies within
 * `timespan` of the first press of the history. The loop stops when the
 * pattern iterator reaches the LAST pattern node, so only the first
 * |pattern| - 1 positions are examined.
 */
module Matcher {
  import opened EventList

  /** `iterator_input->when - last_time`, a subtraction of two `bc_tick_t` values (modulo 2^64). */
  function Elapsed(later: nat, earlier: nat): (d: nat)
    ensures IsTick(d)
    ensures (d - (later - earlier)) % TICK_MOD == 0
    ensures 0 <= later - earlier < TICK_MOD ==> d == later - earlier
    ensures -TICK_MOD <= later - earlier < 0 ==> d == later - earlier + TICK_MOD
  {
    (later - earlier) % TICK_MOD
  }

  /** Position `i` of the history agrees with position `i` of the pattern. */
  predicate Agrees(pattern: seq<Entry>, input: seq<Entry>, timespan: nat, i: nat)
    requires i < |pattern| && i < |input|
  {
    && pattern[i].isLong == input[i].isLong
    && Elapsed(input[i].when, input[0].when) <= timespan
  }

  /**
   * The verdict of `list_compare` on two non-NULL lists, as the code computes
   * it. An empty pattern has a NULL head that the loop condition dereferences,
   * so the pattern must not be empty.
   */
  predicate Matches(pattern: seq<Entry>, input: seq<Entry>, timespan: nat)
    requires pattern != []
  {
    && |pattern| <= |input|
    && forall i :: 0 <= i < |pattern| - 1 ==> Agrees(pattern, input, timespan, i)
  }

  /**
   * The comparison the comments of `list_compare` describe: every position of
   * the pattern, the last one included, agrees with the history.
   */
  predicate FullMatch(pattern: seq<Entry>, input: seq<Entry>, timespan: nat)
  {
    && |pattern| <= |input|
    && forall i :: 0 <= i < |pattern| ==> Agrees(pattern, input, timespan, i)
  }

  /**
   * `list_compare` over the lists themselves. A NULL list gives false, a
   * pattern longer than the input gives false; otherwise the iterators walk
   * both rings while the pattern iterator's successor is not the pattern head.
   */
  method Compare(pattern: List?, input: List?, timespan: nat) returns (same: bool)
    requires pattern != null ==> pattern.Valid()
    requires input != null ==> input.Valid()
    requires pattern != null && input != null ==> pattern.elems != []
    ensures same <==> pattern != null && input != null && Matches(pattern.elems, input.elems, timespan)
  {
    if pattern == null || input == null {
      return false;
    }
    if pattern.length > input.length {
      return false;
    }
    var iteratorPattern := pattern.head;
    var iteratorInput := input.head;
    var lastTime := input.head.when;
    ghost var i := 0;
    ghost var n := |pattern.nodes|;
    while iteratorPattern.next != pattern.head
      invariant 0 <= i < n
      invariant iteratorPattern == pattern.nodes[i] && iteratorInput == input.nodes[i]
      invariant lastTime == input.elems[0].when
      invariant forall j :: 0 <= j < i ==> Agrees(pattern.elems, input.elems, timespan, j)
      decreases n - i
    {
      assert iteratorPattern.next == pattern.nodes[if i < n - 1 then i + 1 else 0];
      if iteratorPattern.isLong != iteratorInput.isLong {
        assert !Agrees(pattern.elems, input.elems, timespan, i);
        return false;
      }
      if Elapsed(iteratorInput.when, lastTime) > timespan {
        assert !Agrees(pattern.elems, input.elems, timespan, i);
        return false;
      }
      iteratorPattern := iteratorPattern.next;
      iteratorInput := iteratorInput.next;
      i := i + 1;
    }
    assert iteratorPattern.next == pattern.nodes[if i < n - 1 then i + 1 else 0];
    return true;
  }

  /**
   * What the code checks is exactly the full comparison of the pattern with
   * its last symbol dropped, provided the history is at least as long as the
   * whole pattern.
   */
  lemma MatchesIsFullMatchOfAllButLast(pattern: seq<Entry>, input: seq<Entry>, timespan: nat)
    requires pattern != []
    ensures Matches(pattern, input, timespan) <==>
              |pattern| <= |input| && FullMatch(pattern[..|pattern| - 1], input, timespan)
  {
    var front := pattern[..|pattern| - 1];
    if |pattern| <= |input| {
      forall i | 0 <= i < |front|
        ensures Agrees(front, input, timespan, i) == Agrees(pattern, input, timespan, i)
      {
        assert front[i] == pattern[i];
      }
    }
  }

  /** The full comparison is stronger than what the code checks. */
  lemma FullMatchImpliesMatches(pattern: seq<Entry>, input: seq<Entry>, timespan: nat)
    requires pattern != []
    requires FullMatch(pattern, input, timespan)
    ensures Matches(pattern, input, timespan)
  {
  }

  /**
   * The last symbol of the pattern never influences the verdict: replacing it
   * by any entry gives the same result.
   */
  lemma {:induction false} LastSymbolIgnored(pattern: seq<Entry>, input: seq<Entry>, timespan: nat, e: Entry)
    requires pattern != []
    ensures Matches(pattern[..|pattern| - 1] + [e], input, timespan) == Matches(pattern, input, timespan)
  {
    var other := pattern[..|pattern| - 1] + [e];
    MatchesIsFullMatchOfAllButLast(pattern, input, timespan);
    MatchesIsFullMatchOfAllButLast(other, input, timespan);
    assert other[..|other| - 1] == pattern[..|pattern| - 1];
  }

  /** A one-symbol pattern is matched by every non-empty history, whatever its presses. */
  lemma SingleSymbolMatchesAnyHistory(pattern: seq<Entry>, input: seq<Entry>, timespan: nat)
    requires |pattern| == 1
    ensures Matches(pattern, input, timespan) <==> input != []
  {
  }

  /**
   * With the default pattern ".-.", the presses short, long, LONG open the
   * door although the last press has the wrong kind.
   */
  lemma WrongLastPressMatches()
    ensures Matches([Entry(0, false), Entry(0, true), Entry(0, false)],
                    [Entry(1000, false), Entry(1400, true), Entry(2000, true)], 30000)
    ensures !FullMatch([Entry(0, false), Entry(0, true), Entry(0, false)],
                       [Entry(1000, false), Entry(1400, true), Entry(2000, true)], 30000)
  {
    var p := [Entry(0, false), Entry(0, true), Entry(0, false)];
    var h := [Entry(1000, false), Entry(1400, true), Entry(2000, true)];
    assert !Agrees(p, h, 30000, 2);
  }

  /**
   * The time window is not enforced on the last press either: with pattern
   * ".." and a 500 ms window, a second press 600 ms after the first matches.
   */
  lemma LateLastPressMatches()
    ensures Matches([Entry(0, false), Entry(0, false)], [Entry(0, false), Entry(600, false)], 500)
    ensures !FullMatch([Entry(0, false), Entry(0, false)], [Entry(0, false), Entry(600, false)], 500)
  {
    var p := [Entry(0, false), Entry(0, false)];
    var h := [Entry(0, false), Entry(600, false)];
    assert !Agrees(p, h, 500, 1);
  }

  /** The window is enforced on every press before the last one. */
  lemma LateMiddlePressFails()
    ensures !Matches([Entry(0, false), Entry(0, false), Entry(0, false)],
                     [Entry(0, false), Entry(600, false), Entry(700, false)], 500)
  {
    var p := [Entry(0, false), Entry(0, false), Entry(0, false)];
    var h := [Entry(0, false), Entry(600, false), Entry(700, false)];
    assert !Agrees(p, h, 500, 1);
  }

  /**
   * A press stamped earlier than the first press of the history wraps around
   * in the unsigned subtraction and is out of any window shorter than the
   * wrapped distance.
   */
  lemma EarlierStampIsOutOfWindow(input: seq<Entry>, timespan: nat, i: nat)
    requires i < |input|
    requires IsTick(input[0].when) && IsTick(input[i].when)
    requires input[i].when < input[0].when
    requires timespan < TICK_MOD - (input[0].when - input[i].when)
    ensures Elapsed(input[i].when, input[0].when) > timespan
  {
  }
}
