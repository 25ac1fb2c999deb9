/** `format_transcript`: one line per non-blank transcript entry, optionally
    prefixed with its `[MM:SS]` start time, joined by newlines. */
module Formatting {
  import opened Strings

  /** One transcript snippet: its text and its start offset in whole
      seconds. */
  datatype Entry = Entry(text: string, start: nat)

  /** An entry whose text is whitespace only is skipped. */
  predicate IsBlank(e: Entry) {
    forall i :: 0 <= i < |e.text| ==> IsSpace(e.text[i])
  }

  /** Blank is what `text.strip()` leaves empty. */
  lemma BlankIffStrippedEmpty(e: Entry)
    ensures IsBlank(e) <==> Strip(e.text, IsSpace) == []
  {
  }

  /** `[<minutes>:<seconds>]` with a two-character seconds field: where each
      field stands. */
  function Bracketed(minutes: string, seconds: string): (r: string)
    requires |seconds| == 2
    ensures |r| == |minutes| + 5 && r[0] == '[' && r[|r| - 4] == ':' && r[|r| - 1] == ']'
    ensures r[1..|r| - 4] == minutes && r[|r| - 3..|r| - 1] == seconds
  {
    var r := "[" + minutes + ":" + seconds + "]";
    assert r[1..|r| - 4] == minutes by {
      assert forall i :: 0 <= i < |minutes| ==> r[1 + i] == minutes[i];
    }
    assert r[|r| - 3..|r| - 1] == seconds by {
      assert r[|r| - 3] == seconds[0] && r[|r| - 2] == seconds[1];
    }
    r
  }

  /** `[MM:SS]` for a start offset: minutes and seconds, each formatted with
      `02d`, so the minute field has exactly two digits below 100 minutes and
      no leading zero beyond that. */
  function Timestamp(start: nat): (r: string)
    ensures |r| >= 7 && r[0] == '[' && r[|r| - 4] == ':' && r[|r| - 1] == ']'
    ensures AllDigits(r[1..|r| - 4]) && AllDigits(r[|r| - 3..|r| - 1])
    ensures DecimalValue(r[|r| - 3..|r| - 1]) < 60
    ensures 60 * DecimalValue(r[1..|r| - 4]) + DecimalValue(r[|r| - 3..|r| - 1]) == start
    ensures start / 60 < 100 ==> |r| == 7
    ensures |r| > 7 ==> r[1] != '0'
  {
    var m, sec := start / 60, start % 60;
    assert 60 * m + sec == start && sec < 60;
    var minutes, seconds := ZeroPad2(m), ZeroPad2(sec);
    var r := Bracketed(minutes, seconds);
    assert r[1..|r| - 4] == minutes && r[|r| - 3..|r| - 1] == seconds;
    assert DecimalValue(minutes) == m && DecimalValue(seconds) == sec;
    assert r[1] == minutes[0];
    r
  }

  /** The line written for a non-blank entry. */
  function FormatLine(e: Entry, withTimestamp: bool): string {
    var text := Strip(e.text, IsSpace);
    if withTimestamp then Timestamp(e.start) + " " + text else text
  }

  /** The entries `format_transcript` keeps, in order: the non-blank ones. */
  function Kept(entries: seq<Entry>): (r: seq<Entry>)
    ensures |r| <= |entries|
  {
    if entries == [] then []
    else
      var n := |entries| - 1;
      Kept(entries[..n]) + (if IsBlank(entries[n]) then [] else [entries[n]])
  }

  /** The lines `format_transcript` collects: one per kept entry. */
  function Lines(entries: seq<Entry>, withTimestamps: bool): (r: seq<string>)
    ensures |r| == |Kept(entries)|
  {
    var kept := Kept(entries);
    seq(|kept|, k requires 0 <= k < |kept| => FormatLine(kept[k], withTimestamps))
  }

  /** Appending an entry appends its line, unless it is blank. */
  lemma LinesAppend(entries: seq<Entry>, e: Entry, withTimestamps: bool)
    ensures Lines(entries + [e], withTimestamps)
      == Lines(entries, withTimestamps) + (if IsBlank(e) then [] else [FormatLine(e, withTimestamps)])
  {
    assert (entries + [e])[..|entries|] == entries;
    var kept := Kept(entries);
    var kept' := Kept(entries + [e]);
    assert kept' == kept + (if IsBlank(e) then [] else [e]);
    var before, after := Lines(entries, withTimestamps), Lines(entries + [e], withTimestamps);
    var added := if IsBlank(e) then [] else [FormatLine(e, withTimestamps)];
    assert |after| == |before + added|;
    forall k | 0 <= k < |after| ensures after[k] == (before + added)[k] {
      if k < |kept| {
        assert kept'[k] == kept[k];
      }
    }
  }

  /** The positions of the non-blank entries, in increasing order. */
  function KeptIndices(entries: seq<Entry>): seq<nat> {
    if entries == [] then []
    else
      var n := |entries| - 1;
      KeptIndices(entries[..n]) + (if IsBlank(entries[n]) then [] else [n])
  }

  /** `KeptIndices` lists every non-blank position once, in increasing
      order, and nothing else. */
  lemma {:induction false} KeptIndicesAreTheNonBlankEntries(entries: seq<Entry>)
    ensures forall k :: 0 <= k < |KeptIndices(entries)| ==>
      KeptIndices(entries)[k] < |entries| && !IsBlank(entries[KeptIndices(entries)[k]])
    ensures forall k, l :: 0 <= k < l < |KeptIndices(entries)| ==> KeptIndices(entries)[k] < KeptIndices(entries)[l]
    ensures forall i :: 0 <= i < |entries| && !IsBlank(entries[i]) ==> i in KeptIndices(entries)
  {
    if entries != [] {
      var n := |entries| - 1;
      var front := entries[..n];
      KeptIndicesAreTheNonBlankEntries(front);
      var before := KeptIndices(front);
      var r := before + (if IsBlank(entries[n]) then [] else [n]);
      assert KeptIndices(entries) == r;
      assert forall k :: 0 <= k < |r| ==> (k < |before| ==> r[k] == before[k]) && (k >= |before| ==> r[k] == n);
      assert forall i :: 0 <= i < n ==> front[i] == entries[i];
    }
  }

  /** The kept entries are the entries at the kept positions. */
  lemma {:induction false} KeptAtKeptIndices(entries: seq<Entry>)
    ensures |KeptIndices(entries)| == |Kept(entries)|
    ensures forall k :: 0 <= k < |KeptIndices(entries)| ==>
      KeptIndices(entries)[k] < |entries| && Kept(entries)[k] == entries[KeptIndices(entries)[k]]
  {
    if entries != [] {
      var n := |entries| - 1;
      var front := entries[..n];
      KeptAtKeptIndices(front);
      var before := KeptIndices(front);
      var keptBefore := Kept(front);
      var blank := IsBlank(entries[n]);
      var r := before + (if blank then [] else [n]);
      var kept := keptBefore + (if blank then [] else [entries[n]]);
      assert KeptIndices(entries) == r;
      assert Kept(entries) == kept;
      assert forall k :: 0 <= k < |r| ==>
        && (k < |before| ==> r[k] == before[k] && kept[k] == keptBefore[k])
        && (k >= |before| ==> r[k] == n && kept[k] == entries[n]);
      assert forall i :: 0 <= i < n ==> front[i] == entries[i];
    }
  }

  /** `format_transcript` emits exactly one line per non-blank entry, in
      input order: line `k` is the formatted `k`-th non-blank entry. */
  lemma LinesFollowKeptEntries(entries: seq<Entry>, withTimestamps: bool)
    ensures |Lines(entries, withTimestamps)| == |KeptIndices(entries)|
    ensures forall k :: 0 <= k < |KeptIndices(entries)| ==>
      && KeptIndices(entries)[k] < |entries|
      && Lines(entries, withTimestamps)[k] == FormatLine(entries[KeptIndices(entries)[k]], withTimestamps)
  {
    KeptAtKeptIndices(entries);
  }

  /** Every line carries the entry's stripped, non-empty text, after the
      timestamp and a space when timestamps are on. */
  lemma FormatLineShape(e: Entry, withTimestamp: bool)
    requires !IsBlank(e)
    ensures var text := Strip(e.text, IsSpace);
      && text != [] && !IsSpace(text[0]) && !IsSpace(text[|text| - 1])
      && (withTimestamp ==> FormatLine(e, withTimestamp) == Timestamp(e.start) + " " + text)
      && (!withTimestamp ==> FormatLine(e, withTimestamp) == text)
  {
  }

  /** A bracketed pair of newline-free fields holds no newline. */
  lemma BracketedHasNoNewline(minutes: string, seconds: string)
    requires |seconds| == 2 && '\n' !in minutes && '\n' !in seconds
    ensures '\n' !in Bracketed(minutes, seconds)
  {
    assert Bracketed(minutes, seconds) == "[" + minutes + ":" + seconds + "]";
  }

  /** Decimal digits are not a newline. */
  lemma DigitsHaveNoNewline(s: string)
    requires AllDigits(s)
    ensures '\n' !in s
  {
    forall i | 0 <= i < |s| ensures s[i] != '\n' {
      assert IsDigit(s[i]);
    }
  }

  /** A timestamp holds digits, brackets and a colon only. */
  lemma TimestampHasNoNewline(start: nat)
    ensures '\n' !in Timestamp(start)
  {
    var minutes, seconds := ZeroPad2(start / 60), ZeroPad2(start % 60);
    DigitsHaveNoNewline(minutes);
    DigitsHaveNoNewline(seconds);
    BracketedHasNoNewline(minutes, seconds);
  }

  /** A line holds a newline only where its entry's text does. */
  lemma LineHasNoNewline(e: Entry, withTimestamp: bool)
    requires '\n' !in e.text
    ensures '\n' !in FormatLine(e, withTimestamp)
  {
    TimestampHasNoNewline(e.start);
    StripKeepsCharacters(e.text, IsSpace);
  }

  /** When no entry's text holds a line break, splitting the output on
      `"\n"` gives back exactly the lines, one per non-blank entry. */
  lemma ContentSplitsIntoLines(entries: seq<Entry>, withTimestamps: bool)
    requires forall i :: 0 <= i < |entries| ==> '\n' !in entries[i].text
    ensures Lines(entries, withTimestamps) == [] ==> Join(Lines(entries, withTimestamps), "\n") == ""
    ensures Lines(entries, withTimestamps) != [] ==>
      Split(Join(Lines(entries, withTimestamps), "\n"), '\n') == Lines(entries, withTimestamps)
  {
    var lines := Lines(entries, withTimestamps);
    KeptAtKeptIndices(entries);
    forall k | 0 <= k < |lines| ensures '\n' !in lines[k] {
      LineHasNoNewline(Kept(entries)[k], withTimestamps);
    }
    if lines != [] {
      SplitJoin(lines, '\n');
    }
  }

  /** `format_transcript(entries, include_timestamps)`. */
  method FormatTranscript(entries: seq<Entry>, includeTimestamps: bool) returns (content: string)
    ensures content == Join(Lines(entries, includeTimestamps), "\n")
  {
    var lines: seq<string> := [];
    for i := 0 to |entries|
      invariant lines == Lines(entries[..i], includeTimestamps)
    {
      assert entries[..i + 1] == entries[..i] + [entries[i]];
      LinesAppend(entries[..i], entries[i], includeTimestamps);
      var text := Strip(entries[i].text, IsSpace);
      BlankIffStrippedEmpty(entries[i]);
      if text == [] {
        continue;
      }
      if includeTimestamps {
        lines := lines + [Timestamp(entries[i].start) + " " + text];
      } else {
        lines := lines + [text];
      }
    }
    assert entries[..|entries|] == entries;
    content := Join(lines, "\n");
  }
}
