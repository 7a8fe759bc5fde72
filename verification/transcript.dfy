/**
 * The parser that turns the transcription engine's sanitised text output into
 * timed segments. Lines look like "[00:00:00.000 --> 00:00:02.500]  text"; the
 * timestamps are kept as the raw trimmed strings.
 */
module Transcript {
  import opened Wrappers
  import opened Text
  import opened Seqs

  datatype Segment = Segment(start: string, end: string, text: string)

  const Arrow: string := "-->"

  /** The lines of the output: the whole text is trimmed, then split at every '\n'. */
  function Lines(output: string): (lines: seq<string>)
    ensures |lines| >= 1
  {
    SplitOn(Strip(output, Whitespace), "\n")
  }

  /** A trimmed line that may hold a segment: it starts with '[' and contains "-->". */
  predicate IsSegmentLine(line: string)
  {
    StartsWith(line, "[") && Contains(line, Arrow)
  }

  /**
   * Parsing one trimmed candidate line: `None` wherever Python raises while
   * unpacking, that is when there is no ']', or when the time part (before the
   * first ']', with '[' stripped from both ends) does not split on "-->" into
   * exactly two pieces.
   */
  function ParseSegmentLine(line: string): Option<Segment>
  {
    match Partition(line, ']')
    case None => None
    case Some((timePart, text)) =>
      var range := SplitOn(Strip(timePart, {'['}), Arrow);
      if |range| != 2 then None
      else Some(Segment(Strip(range[0], Whitespace), Strip(range[1], Whitespace), Strip(text, Whitespace)))
  }

  /** What one line of output contributes: a segment, or nothing. */
  function ParseLine(raw: string): Option<Segment>
  {
    var line := Strip(raw, Whitespace);
    if IsSegmentLine(line) then ParseSegmentLine(line) else None
  }

  /** The segments of an output: one per line that parses, in line order. */
  function Segments(output: string): seq<Segment>
  {
    FilterMap(Lines(output), ParseLine)
  }

  /** The parsing loop: each line is trimmed, checked, parsed and appended, or skipped. */
  method ParseSegments(output: string) returns (segments: seq<Segment>)
    ensures segments == Segments(output)
  {
    var lines := Lines(output);
    segments := [];
    for i := 0 to |lines|
      invariant segments == FilterMap(lines[..i], ParseLine)
    {
      FilterMapStep(lines, i, ParseLine);
      var line := Strip(lines[i], Whitespace);
      if IsSegmentLine(line) {
        var parsed := ParseSegmentLine(line);
        if parsed.Some? {
          segments := segments + [parsed.value];
        }
      }
    }
    assert lines[..|lines|] == lines;
  }

  /** A segment comes only from a line that, trimmed, starts with '[', contains "-->" and has a ']'. */
  lemma SegmentOnlyFromSegmentLine(raw: string)
    requires ParseLine(raw).Some?
    ensures var line := Strip(raw, Whitespace);
      line != [] && line[0] == '[' && Contains(line, Arrow) && ']' in line
  {
    var line := Strip(raw, Whitespace);
    assert IsSegmentLine(line) && ParseSegmentLine(line).Some?;
    CandidateShape(line);
  }

  /** A candidate line that parses starts with '[', contains "-->" and has a ']'. */
  lemma CandidateShape(line: string)
    requires IsSegmentLine(line) && ParseSegmentLine(line).Some?
    ensures line != [] && line[0] == '[' && Contains(line, Arrow) && ']' in line
  {
    assert line[..1][0] == line[0];
    BracketInParsedLine(line);
  }

  /** A line that parses has a ']'. */
  lemma BracketInParsedLine(line: string)
    requires ParseSegmentLine(line).Some?
    ensures ']' in line
  {
    assert Partition(line, ']').Some?;
  }

  /** A candidate line without ']' is skipped. */
  lemma SkipsWithoutBracket(raw: string)
    requires ']' !in Strip(raw, Whitespace)
    ensures ParseLine(raw) == None
  {
  }

  /** A line that trims to `timePart + "]" + rest` parses exactly when its range splits in two. */
  lemma ParseByTimePart(raw: string, timePart: string, rest: string)
    requires Strip(raw, Whitespace) == timePart + "]" + rest && ']' !in timePart
    requires |SplitOn(Strip(timePart, {'['}), Arrow)| != 2
    ensures ParseLine(raw) == None
  {
    PartitionAt(timePart, ']', rest);
    assert timePart + "]" + rest == timePart + [']'] + rest;
  }

  /** A time part without "-->" still has none once '[' is stripped, so it is one piece. */
  lemma NoArrowAfterBracketStrip(timePart: string)
    requires forall j :: !OccursAt(timePart, Arrow, j)
    ensures |SplitOn(Strip(timePart, {'['}), Arrow)| == 1
  {
    var lo := LeadingIn(timePart, {'['});
    var r := Strip(timePart, {'['});
    assert lo + |r| <= |timePart| && r == timePart[lo..lo + |r|];
    forall j ensures !OccursAt(r, Arrow, j) {
      NotOccursInSlice(timePart, lo, lo + |r|, Arrow, j);
    }
    SplitNone(r, Arrow);
  }

  /** A candidate line whose time part holds no "-->" (the arrow only follows the ']') is skipped. */
  lemma SkipsWithoutArrowInTime(raw: string, timePart: string, rest: string)
    requires Strip(raw, Whitespace) == timePart + "]" + rest && ']' !in timePart
    requires forall j :: !OccursAt(timePart, Arrow, j)
    ensures ParseLine(raw) == None
  {
    NoArrowAfterBracketStrip(timePart);
    ParseByTimePart(raw, timePart, rest);
  }

  /** A candidate line whose time part holds two or more "-->" is skipped. */
  lemma SkipsWithManyArrowsInTime(raw: string, timePart: string, rest: string, i: nat, j: nat)
    requires Strip(raw, Whitespace) == timePart + "]" + rest && ']' !in timePart
    requires OccursAt(timePart, Arrow, i) && OccursAt(timePart, Arrow, j) && i + |Arrow| <= j
    ensures ParseLine(raw) == None
  {
    ManyArrowsAfterBracketStrip(timePart, i, j);
    ParseByTimePart(raw, timePart, rest);
  }

  /** A time part with two non-overlapping "-->" still splits into three or more pieces once '[' is stripped. */
  lemma ManyArrowsAfterBracketStrip(timePart: string, i: nat, j: nat)
    requires OccursAt(timePart, Arrow, i) && OccursAt(timePart, Arrow, j) && i + |Arrow| <= j
    ensures |SplitOn(Strip(timePart, {'['}), Arrow)| >= 3
  {
    assert Arrow[0] == '-' && Arrow[2] == '>';
    SplitTwiceAfterStrip(timePart, {'['}, Arrow, i, j);
  }

  /** "-->" occurs exactly once in `s + "-->" + e` when it occurs in neither part. */
  lemma SingleArrow(s: string, e: string)
    requires !Contains(s, Arrow) && !Contains(e, Arrow)
    ensures OccursAt(s + Arrow + e, Arrow, |s|)
    ensures forall j :: OccursAt(s + Arrow + e, Arrow, j) ==> j == |s|
  {
    var x := s + Arrow + e;
    assert forall k :: 0 <= k < |s| ==> x[k] == s[k];
    assert x[|s|] == '-' && x[|s| + 1] == '-' && x[|s| + 2] == '>';
    assert forall k :: |s| + 3 <= k < |x| ==> x[k] == e[k - |s| - 3];
    assert x[0..|s|] == s && x[|s| + 3..|x|] == e;
    forall j | OccursAt(x, Arrow, j) ensures j == |s| {
      assert x[j] == '-' && x[j + 1] == '-' && x[j + 2] == '>';
      if j + 3 <= |s| {
        OccursInsideSlice(x, 0, |s|, Arrow, j);
      } else if |s| + 3 <= j {
        OccursInsideSlice(x, |s| + 3, |x|, Arrow, j);
      }
    }
  }

  /**
   * A well-formed line "[S --> E]  T" yields the segment (trim S, trim E, trim T).
   * The text T is everything after the first ']' and may itself contain ']'.
   */
  lemma WellFormedLine(s: string, e: string, t: string)
    requires ']' !in s && ']' !in e
    requires !Contains(s, Arrow) && !Contains(e, Arrow)
    requires s == [] || s[0] != '['
    requires e == [] || e[|e| - 1] != '['
    ensures ParseLine("[" + s + Arrow + e + "]" + t)
      == Some(Segment(Strip(s, Whitespace), Strip(e, Whitespace), Strip(t, Whitespace)))
  {
    var pre := "[" + s + Arrow + e + "]";
    var t' := StripRight(t, Whitespace);
    assert "[" + s + Arrow + e + "]" + t == pre + t;
    assert pre + t' == ("[" + s + Arrow + e) + [']'] + t';
    TrimLine(pre, t);
    BracketedIsCandidate(s, e, t');
    BracketedParses(s, e, t');
    StripAfterStripRight(t, Whitespace);
  }

  /** A line "[S-->E]T" is a candidate: it starts with '[' and contains "-->". */
  lemma BracketedIsCandidate(s: string, e: string, t: string)
    requires !Contains(s, Arrow) && !Contains(e, Arrow)
    ensures IsSegmentLine("[" + s + Arrow + e + "]" + t)
  {
    var line := "[" + s + Arrow + e + "]" + t;
    SingleArrow(s, e);
    assert line[1..1 + |s| + 3 + |e|] == s + Arrow + e;
    OccursInSlice(line, 1, 1 + |s| + 3 + |e|, Arrow, |s|);
    assert line[..1] == "[";
  }

  /** The line "[S-->E]T" parses to its three trimmed fields. */
  lemma BracketedParses(s: string, e: string, t: string)
    requires ']' !in s && ']' !in e
    requires !Contains(s, Arrow) && !Contains(e, Arrow)
    requires s == [] || s[0] != '['
    requires e == [] || e[|e| - 1] != '['
    ensures ParseSegmentLine(("[" + s + Arrow + e) + [']'] + t)
      == Some(Segment(Strip(s, Whitespace), Strip(e, Whitespace), Strip(t, Whitespace)))
  {
    RangeOfTimePart(s, e);
    NoBracketInTimePart(s, e);
    ParseAtBracket("[" + s + Arrow + e, t, s, e);
  }

  /** The time part "[S-->E" holds no ']' when S and E hold none. */
  lemma NoBracketInTimePart(s: string, e: string)
    requires ']' !in s && ']' !in e
    ensures ']' !in "[" + s + Arrow + e
  {
  }

  /** A line whose first ']' ends a time part that splits into two pieces parses to the trimmed fields. */
  lemma ParseAtBracket(timePart: string, t: string, s: string, e: string)
    requires ']' !in timePart
    requires SplitOn(Strip(timePart, {'['}), Arrow) == [s, e]
    ensures ParseSegmentLine(timePart + [']'] + t)
      == Some(Segment(Strip(s, Whitespace), Strip(e, Whitespace), Strip(t, Whitespace)))
  {
    PartitionAt(timePart, ']', t);
  }

  /** Trimming a line that starts with '[' and whose text follows a ']' only trims the end of the text. */
  lemma TrimLine(pre: string, t: string)
    requires pre != [] && pre[0] == '[' && pre[|pre| - 1] == ']'
    ensures Strip(pre + t, Whitespace) == pre + StripRight(t, Whitespace)
  {
    StripRightAppend(pre, t, Whitespace);
    var line := pre + StripRight(t, Whitespace);
    assert line[0] == '[';
    assert LeadingIn(line, Whitespace) == 0;
  }

  /** The time part "[S-->E" of a well-formed line splits into S and E. */
  lemma RangeOfTimePart(s: string, e: string)
    requires !Contains(s, Arrow) && !Contains(e, Arrow)
    requires s == [] || s[0] != '['
    requires e == [] || e[|e| - 1] != '['
    ensures SplitOn(Strip("[" + s + Arrow + e, {'['}), Arrow) == [s, e]
  {
    BracketedRange(s, e);
    RangeSplits(s, e);
  }

  /** "S-->E" with no arrow in S or E splits into S and E. */
  lemma RangeSplits(s: string, e: string)
    requires !Contains(s, Arrow) && !Contains(e, Arrow)
    ensures SplitOn(s + Arrow + e, Arrow) == [s, e]
  {
    var range := s + Arrow + e;
    SingleArrow(s, e);
    SplitOnce(range, Arrow, |s|);
    assert range[..|s|] == s && range[|s| + 3..] == e;
  }

  /** Stripping '[' from "[S-->E" leaves "S-->E" when S does not start, and E does not end, with '['. */
  lemma BracketedRange(s: string, e: string)
    requires s == [] || s[0] != '['
    requires e == [] || e[|e| - 1] != '['
    ensures Strip("[" + s + Arrow + e, {'['}) == s + Arrow + e
  {
    RangeEnds(s, e);
    StripOneBracket(s + Arrow + e);
    BracketFront(s, e);
  }

  /** The line's time part is the bracket followed by the range. */
  lemma BracketFront(s: string, e: string)
    ensures "[" + s + Arrow + e == "[" + (s + Arrow + e)
  {
  }

  /** "S-->E" neither starts nor ends with '[' when S does not start, and E does not end, with one. */
  lemma RangeEnds(s: string, e: string)
    requires s == [] || s[0] != '['
    requires e == [] || e[|e| - 1] != '['
    ensures var range := s + Arrow + e; range[0] != '[' && range[|range| - 1] != '['
  {
    var range := s + Arrow + e;
    if s == [] {
      assert range[0] == Arrow[0] == '-';
    } else {
      assert range[0] == s[0];
    }
    if e == [] {
      assert range[|range| - 1] == Arrow[2] == '>';
    } else {
      assert range[|range| - 1] == e[|e| - 1];
    }
  }

  /** Stripping '[' from "[" + range takes off just the one leading bracket. */
  lemma StripOneBracket(range: string)
    requires range != [] && range[0] != '[' && range[|range| - 1] != '['
    ensures Strip("[" + range, {'['}) == range
  {
    var tp := "[" + range;
    assert tp[0] == '[' && tp[1] == range[0];
    assert LeadingIn(tp, {'['}) == 1;
    var r := Strip(tp, {'['});
    assert tp[|tp| - 1] !in {'['};
    assert 1 + |r| == |tp|;
    assert tp[1..] == range;
  }

  /**
   * The segments follow the lines: the k-th segment is what the k-th parsing
   * line yields, the lines that yield them are in increasing order, and every
   * line that parses yields one.
   */
  lemma SegmentsFollowLines(output: string)
    ensures var lines, segments := Lines(output), Segments(output);
      var idx := KeptIndices(lines, ParseLine);
      && |segments| <= |lines|
      && |idx| == |segments|
      && (forall k :: 0 <= k < |idx| ==> idx[k] < |lines| && ParseLine(lines[idx[k]]) == Some(segments[k]))
      && (forall k, l :: 0 <= k < l < |idx| ==> idx[k] < idx[l])
      && (forall i :: 0 <= i < |lines| && ParseLine(lines[i]).Some? ==> i in idx)
  {
    FilterMapTrace(Lines(output), ParseLine);
  }

  /** An output of one clean line and a newline has that line as its only line. */
  lemma SingleLine(line: string)
    requires line != [] && line[0] !in Whitespace && line[|line| - 1] !in Whitespace
    requires '\n' !in line
    ensures Lines(line + "\n") == [line]
  {
    StripRightAppend(line, "\n", Whitespace);
    assert TrailingIn("\n", Whitespace) == 1;
    assert StripRight(line + "\n", Whitespace) == line;
    assert LeadingIn(line, Whitespace) == 0;
    ContainsChar(line, '\n');
    SplitNone(line, "\n");
  }

  /** A field that is not empty and not padded with whitespace. */
  predicate Trimmed(x: string)
  {
    x != [] && x[0] !in Whitespace && x[|x| - 1] !in Whitespace
  }

  /** A field the engine may print between the brackets of a segment line. */
  predicate TimeField(x: string)
  {
    Trimmed(x) && '\n' !in x && ']' !in x && !Contains(x, Arrow) && x[0] != '[' && x[|x| - 1] != '['
  }

  /**
   * An output made of one line in the engine's layout, "[START --> END]  TEXT"
   * and a newline, gives exactly the segment (START, END, TEXT), provided the
   * fields are trimmed, hold no newline, the times hold no ']' and no "-->",
   * START does not start and END does not end with '['.
   */
  lemma SingleSegmentOutput(start: string, end: string, text: string)
    requires TimeField(start) && TimeField(end)
    requires Trimmed(text) && '\n' !in text
    ensures Segments("[" + start + " --> " + end + "]  " + text + "\n") == [Segment(start, end, text)]
  {
    var line := "[" + start + " --> " + end + "]  " + text;
    LayoutIsOneLine(start, end, text);
    LayoutParses(start, end, text);
    assert FilterMap([line], ParseLine) == FilterMap([line][..0], ParseLine) + Kept(ParseLine(line));
  }

  /** The output of one line in the engine's layout has that line as its only line. */
  lemma LayoutIsOneLine(start: string, end: string, text: string)
    requires Trimmed(text)
    requires '\n' !in start && '\n' !in end && '\n' !in text
    ensures var line := "[" + start + " --> " + end + "]  " + text;
      Lines(line + "\n") == [line]
  {
    var line := "[" + start + " --> " + end + "]  " + text;
    assert line[0] == '[' && line[|line| - 1] == text[|text| - 1];
    assert '\n' !in line;
    SingleLine(line);
  }

  /** A line in the engine's layout parses to its three fields. */
  lemma LayoutParses(start: string, end: string, text: string)
    requires Trimmed(start) && Trimmed(end) && Trimmed(text)
    requires ']' !in start && ']' !in end
    requires !Contains(start, Arrow) && !Contains(end, Arrow)
    requires start[0] != '[' && end[|end| - 1] != '['
    ensures ParseLine("[" + start + " --> " + end + "]  " + text) == Some(Segment(start, end, text))
  {
    var s, e, t := start + " ", " " + end, "  " + text;
    assert "[" + start + " --> " + end + "]  " + text == "[" + s + Arrow + e + "]" + t;
    NoArrowWithSpace(start);
    NoArrowWithSpace(end);
    assert s[0] == start[0] && e[|e| - 1] == end[|end| - 1];
    assert ']' !in s && ']' !in e;
    WellFormedLine(s, e, t);
    PaddedFields(start, end, text);
  }

  /** Trimming the padded fields of the layout gives the fields back. */
  lemma PaddedFields(start: string, end: string, text: string)
    requires Trimmed(start) && Trimmed(end) && Trimmed(text)
    ensures Strip(start + " ", Whitespace) == start
    ensures Strip(" " + end, Whitespace) == end
    ensures Strip("  " + text, Whitespace) == text
  {
    StripPadding("", start, " ", Whitespace);
    assert "" + start + " " == start + " ";
    StripPadding(" ", end, "", Whitespace);
    assert " " + end + "" == " " + end;
    StripPadding("  ", text, "", Whitespace);
    assert "  " + text + "" == "  " + text;
  }

  /** A space next to a text without "-->" does not make one. */
  lemma NoArrowWithSpace(x: string)
    requires !Contains(x, Arrow)
    ensures !Contains(x + " ", Arrow) && !Contains(" " + x, Arrow)
  {
    var xs, sx := x + " ", " " + x;
    forall j ensures !OccursAt(xs, Arrow, j) {
      if 0 <= j && j + 3 <= |xs| {
        if j + 3 <= |x| {
          assert !OccursAt(x, Arrow, j);
          var k :| j <= k < j + 3 && x[k] != Arrow[k - j];
          assert xs[k] == x[k];
        } else {
          assert xs[j + 2] == ' ';
        }
      }
    }
    forall j ensures !OccursAt(sx, Arrow, j) {
      if 0 <= j && j + 3 <= |sx| {
        if 1 <= j {
          assert !OccursAt(x, Arrow, j - 1);
          var k :| j - 1 <= k < j + 2 && x[k] != Arrow[k - (j - 1)];
          assert sx[k + 1] == x[k];
        } else {
          assert sx[0] == ' ';
        }
      }
    }
  }
}
