/**
 * The unlock sequence as text: '.' is a short press and '-' a long one.
 * `initialize_sequence` turns such a text into the pattern list, one entry
 * per character, every entry stamped 0.
 */
module SequenceParser {
  import opened EventList

  predicate IsSymbol(c: char) { c == '.' || c == '-' }

  /** A text on which the scanning loop of `initialize_sequence` terminates. */
  predicate WellFormed(text: seq<char>)
  {
    forall i :: 0 <= i < |text| ==> IsSymbol(text[i])
  }

  /** The pattern entry for one symbol: `list_add_last(&pattern, 0, sample[i] == '-')`. */
  function SymbolEntry(c: char): Entry
  {
    Entry(0, c == '-')
  }

  /** The pattern list that `initialize_sequence` builds: one entry appended per character. */
  function Parse(text: seq<char>): (p: seq<Entry>)
    requires WellFormed(text)
    ensures |p| == |text|
    ensures forall i :: 0 <= i < |text| ==> p[i].when == 0 && (p[i].isLong <==> text[i] == '-')
  {
    if text == [] then []
    else Parse(text[..|text| - 1]) + [SymbolEntry(text[|text| - 1])]
  }

  /** The text form of a pattern, one '-' or '.' per entry, as the list is printed. */
  function Render(p: seq<Entry>): (text: seq<char>)
    ensures |text| == |p|
    ensures WellFormed(text)
    ensures forall i :: 0 <= i < |p| ==> (text[i] == '-' <==> p[i].isLong)
  {
    if p == [] then []
    else Render(p[..|p| - 1]) + [if p[|p| - 1].isLong then '-' else '.']
  }

  /** Parsing a well-formed text and printing the result gives the text back. */
  lemma RenderParse(text: seq<char>)
    requires WellFormed(text)
    ensures Render(Parse(text)) == text
  {
    var r := Render(Parse(text));
    assert |r| == |text|;
    forall i | 0 <= i < |text| ensures r[i] == text[i] {
      assert IsSymbol(text[i]) && IsSymbol(r[i]);
    }
  }

  /** Printing a pattern whose entries are all stamped 0 and parsing the text gives the pattern back. */
  lemma ParseRender(p: seq<Entry>)
    requires forall i :: 0 <= i < |p| ==> p[i].when == 0
    ensures Parse(Render(p)) == p
  {
    var text := Render(p);
    var q := Parse(text);
    forall i | 0 <= i < |p| ensures q[i] == p[i] {
      assert q[i].isLong <==> text[i] == '-';
      assert text[i] == '-' <==> p[i].isLong;
    }
  }

  /** Parsing one more character of a text appends that character's entry: the loop's step. */
  lemma {:induction false} ParsePrefix(text: seq<char>, i: nat)
    requires WellFormed(text) && i < |text|
    ensures Parse(text[..i + 1]) == Parse(text[..i]) + [SymbolEntry(text[i])]
  {
    assert text[..i + 1][..i] == text[..i];
  }

  /**
   * One pass of the scanning loop of `initialize_sequence`: the index the
   * next pass starts from. On a character other than '.' and '-' the
   * `continue` skips the increment.
   */
  function ScanStep(text: seq<char>, i: nat): (next: nat)
    requires i < |text|
    ensures next == i || next == i + 1
    ensures next == i + 1 <==> IsSymbol(text[i])
  {
    if !IsSymbol(text[i]) then i else i + 1
  }

  /** The index after `passes` passes; the loop leaves at the terminator, index |text|. */
  function ScanIndex(text: seq<char>, passes: nat): (i: nat)
    ensures i <= |text|
  {
    if passes == 0 then 0
    else
      var i := ScanIndex(text, passes - 1);
      if i < |text| then ScanStep(text, i) else i
  }

  /** On a well-formed text the loop reaches the terminator after |text| passes. */
  lemma {:induction false} ScanTerminates(text: seq<char>, passes: nat)
    requires WellFormed(text)
    ensures ScanIndex(text, passes) == if passes <= |text| then passes else |text|
  {
    if passes > 0 {
      ScanTerminates(text, passes - 1);
    }
  }

  /**
   * On any other character the loop is stuck: however many passes it makes,
   * the index never moves past that character, so the terminator is never reached.
   */
  lemma {:induction false} ScanStuckAt(text: seq<char>, j: nat, passes: nat)
    requires j < |text| && !IsSymbol(text[j])
    ensures ScanIndex(text, passes) <= j < |text|
  {
    if passes > 0 {
      ScanStuckAt(text, j, passes - 1);
    }
  }

  /** The loop terminates exactly on the well-formed texts. */
  lemma ScanTerminatesIff(text: seq<char>)
    ensures WellFormed(text) <==> ScanIndex(text, |text|) == |text|
  {
    if WellFormed(text) {
      ScanTerminates(text, |text|);
    } else {
      var j :| 0 <= j < |text| && !IsSymbol(text[j]);
      ScanStuckAt(text, j, |text|);
    }
  }
}
