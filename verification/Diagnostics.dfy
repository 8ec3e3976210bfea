/**
 The diagnostic printer: which lines it shows, how it marks the span, and exactly when one of its
 checked subtractions or index accesses stops the compiler.
 */
module Diagnostics {
  import opened Wrappers
  import opened LineSpans

  /** A printed byte, with the colour changes before it. */
  datatype Cell = Cell(colour: bool, reset: bool, c: Byte)

  datatype Glyph = Corner | Dash | Blank

  datatype Mark = Mark(colour: bool, glyph: Glyph)

  /** What is printed; paddings and indents are numbers of blanks or rules. */
  datatype Event =
    | Message
    | Header(rule: nat, line: nat, column: nat)
    | SourceLine(number: nat, padding: nat, cells: seq<Cell>)
    | Underline(indent: nat, marks: seq<Mark>)
    | Tail(indent: nat, blanks: nat)
    | Footer(rule: nat)

  const UNDERSCORE: Byte := 95
  const SPACE: Byte := 32

  function CheckedSub(a: nat, b: nat): Option<nat> {
    if a < b then None else Some(a - b)
  }

  /** The length of a number in decimal. */
  function Digits(n: nat): (d: nat)
    ensures d >= 1
  {
    if n < 10 then 1 else 1 + Digits(n / 10)
  }

  lemma {:induction false} DigitsGrow(a: nat, b: nat)
    requires a <= b
    ensures Digits(a) <= Digits(b)
  {
    if a >= 10 {
      DigitsGrow(a / 10, b / 10);
    }
  }

  // ----- One line -----

  /** The byte at an offset of the line, and a blank for its newline, or a mark there for an empty span. */
  function CellAt(c: Contents, line: LineSpan, start: nat, end: nat, index: nat): Cell
    requires line.end <= |c|
  {
    Cell(index == start, index == end,
      if index < line.end then c[index] else if start == end && index == start then UNDERSCORE else SPACE)
  }

  /** The cells of the offsets before `stop`. */
  function Cells(c: Contents, line: LineSpan, start: nat, end: nat, stop: nat): seq<Cell>
    requires line.start <= stop <= line.end + 1 && line.end <= |c|
    decreases stop
  {
    if stop == line.start then [] else Cells(c, line, start, end, stop - 1) + [CellAt(c, line, start, end, stop - 1)]
  }

  method PrintSourceLine(fileContents: Contents, fileSpan: LineSpan, start: nat, end: nat, lineNumber: nat, largest: nat)
    returns (r: Option<Event>)
    requires fileSpan.start <= fileSpan.end <= |fileContents|
    ensures r == if Digits(lineNumber) > Digits(largest) then None
                 else Some(SourceLine(lineNumber, Digits(largest) - Digits(lineNumber), Cells(fileContents, fileSpan, start, end, fileSpan.end + 1)))
  {
    var index := fileSpan.start;
    var padding := CheckedSub(Digits(largest), Digits(lineNumber));
    if padding.None? {
      return None;
    }
    var cells: seq<Cell> := [];
    while index <= fileSpan.end
      invariant fileSpan.start <= index <= fileSpan.end + 1
      invariant cells == Cells(fileContents, fileSpan, start, end, index)
    {
      var c := SPACE;
      if index < fileSpan.end {
        c := fileContents[index];
      } else if start == end && index == start {
        c := UNDERSCORE;
      }
      cells := cells + [Cell(index == start, index == end, c)];
      index := index + 1;
    }
    r := Some(SourceLine(lineNumber, padding.value, cells));
  }

  /** A rule over the span's bytes, with a corner under its last one. */
  function MarkAt(start: nat, end: nat, index: nat): Mark {
    Mark(index == start, if index + 1 == end then Corner else if start <= index < end then Dash else Blank)
  }

  function Marks(line: LineSpan, start: nat, end: nat, stop: nat): seq<Mark>
    requires line.start <= stop
    decreases stop
  {
    if stop == line.start then [] else Marks(line, start, end, stop - 1) + [MarkAt(start, end, stop - 1)]
  }

  method PrintUnderline(width: nat, fileSpan: LineSpan, start: nat, end: nat) returns (r: Option<Event>)
    requires fileSpan.start <= fileSpan.end
    ensures r == if end == 0 && fileSpan.start < fileSpan.end then None
                 else Some(Underline(width + 2, Marks(fileSpan, start, end, fileSpan.end)))
  {
    var marks: seq<Mark> := [];
    var index := fileSpan.start;
    while index < fileSpan.end
      invariant fileSpan.start <= index <= fileSpan.end
      invariant marks == Marks(fileSpan, start, end, index)
      invariant index > fileSpan.start ==> end > 0
    {
      var last := CheckedSub(end, 1);
      if last.None? {
        return None;
      }
      var glyph := Blank;
      if index == last.value {
        glyph := Corner;
      } else if index >= start && index < end {
        glyph := Dash;
      }
      marks := marks + [Mark(index == start, glyph)];
      index := index + 1;
    }
    r := Some(Underline(width + 2, marks));
  }

  // ----- The whole report -----

  /** The line the report starts at: that of the span's start, or the first if the start is past the end. */
  function FirstLine(c: Contents, start: nat): nat {
    if start <= |c| then Newlines(c, start) else 0
  }

  lemma LineOf(c: Contents, k: nat)
    requires k <= |c|
    ensures Newlines(c, k) < |SpansOf(c)| && Covers(SpansOf(c)[Newlines(c, k)], k)
    ensures forall i :: 0 <= i < |SpansOf(c)| && Covers(SpansOf(c)[i], k) ==> i == Newlines(c, k)
  {
    ExactlyOneLineCovers(c, k);
  }

  /** The span ends past the file, or before the line it starts in. */
  predicate Traps(c: Contents, start: nat, end: nat) {
    end > |c| || Newlines(c, end) < FirstLine(c, start)
  }

  predicate InFile(c: Contents, i: nat) {
    i < |SpansOf(c)| && SpansOf(c)[i].start <= SpansOf(c)[i].end <= |c|
  }

  function Shown(c: Contents, start: nat, end: nat, i: nat, largest: nat): Event
    requires InFile(c, i) && i + 1 <= largest
  {
    DigitsGrow(i + 1, largest);
    SourceLine(i + 1, Digits(largest) - Digits(i + 1), Cells(c, SpansOf(c)[i], start, end, SpansOf(c)[i].end + 1))
  }

  ghost predicate AllInFile(c: Contents) {
    forall i :: 0 <= i < |SpansOf(c)| ==> InFile(c, i)
  }

  lemma LinesAreInFile(c: Contents)
    ensures AllInFile(c)
  {
    SpansOfIsLineIndex(c);
    forall i | 0 <= i < |SpansOf(c)| ensures InFile(c, i) {
      assert IsLine(c, SpansOf(c)[i]);
    }
  }

  /** Lines number `first` up to `limit`, the latter excluded. */
  ghost function ShownLines(c: Contents, start: nat, end: nat, first: nat, limit: nat, largest: nat): seq<Event>
    requires AllInFile(c) && first <= limit <= |SpansOf(c)| && limit <= largest
    decreases limit
  {
    if first == limit then []
    else
      assert InFile(c, limit - 1);
      ShownLines(c, start, end, first, limit - 1, largest) + [Shown(c, start, end, limit - 1, largest)]
  }

  /** Lines `first` to the one the span ends in; that one only if the span reaches into it. */
  ghost function SpanLines(c: Contents, start: nat, end: nat, first: nat): seq<Event>
    requires AllInFile(c) && end <= |c| && first <= Newlines(c, end)
  {
    LineOf(c, end);
    var s, last := SpansOf(c), Newlines(c, end);
    assert InFile(c, last);
    ShownLines(c, start, end, first, last, last + 2)
    + if end > s[last].start then [Shown(c, start, end, last, last + 2), Underline(Digits(last + 2) + 2, Marks(s[last], start, end, s[last].end))] else []
  }

  lemma FirstLineOf(c: Contents, start: nat)
    ensures FirstLine(c, start) < |SpansOf(c)| && SpansOf(c)[FirstLine(c, start)].start <= start
    ensures start > |c| ==> SpansOf(c)[0].start == 0
  {
    SpansOfIsLineIndex(c);
    if start <= |c| {
      LineOf(c, start);
    }
  }

  /** The report: the line before the span, the span's lines with a rule under the last, and the line after. */
  ghost function Report(c: Contents, start: nat, end: nat): seq<Event>
    requires AllInFile(c) && !Traps(c, start, end)
  {
    LineOf(c, end);
    FirstLineOf(c, start);
    var s, first, last := SpansOf(c), FirstLine(c, start), Newlines(c, end);
    var width := Digits(last + 2);
    assert last + 1 < |s| ==> InFile(c, last + 1);
    [Message, Header(width + 2, first + 1, start - s[first].start + 1)]
    + (if first > 0 then assert InFile(c, first - 1); [Shown(c, start, end, first - 1, last + 2)] else [])
    + SpanLines(c, start, end, first)
    + [Tail(width + 2, end - s[last].start)]
    + (if last + 1 < |s| then [Shown(c, start, end, last + 1, last + 2)] else [])
    + [Footer(width + 2)]
  }

  // ----- The printer -----

  /** The scan over all lines finds the line of the start and, from that of the end, the largest number to print. */
  method ScanLines(c: Contents, lineSpans: seq<LineSpan>, start: nat, end: nat) returns (errorStartIndex: nat, largest: nat)
    requires lineSpans == SpansOf(c)
    ensures errorStartIndex == FirstLine(c, start)
    ensures largest == if end <= |c| then Newlines(c, end) + 2 else 0
  {
    CoverIsLine(c, start);
    CoverIsLine(c, end);
    var lineIndex := 0;
    errorStartIndex := 0;
    largest := 0;
    while lineIndex < |lineSpans|
      invariant lineIndex <= |lineSpans|
      invariant errorStartIndex == if start <= |c| && Newlines(c, start) < lineIndex then Newlines(c, start) else 0
      invariant largest == if end <= |c| && Newlines(c, end) < lineIndex then Newlines(c, end) + 2 else 0
    {
      if start >= lineSpans[lineIndex].start && start <= lineSpans[lineIndex].end {
        errorStartIndex := lineIndex;
      }
      if end >= lineSpans[lineIndex].start && end <= lineSpans[lineIndex].end {
        largest := lineIndex + 2;
      }
      lineIndex := lineIndex + 1;
    }
  }

  lemma CoverIsLine(c: Contents, k: nat)
    ensures forall i :: 0 <= i < |SpansOf(c)| ==> (SpansOf(c)[i].start <= k <= SpansOf(c)[i].end <==> k <= |c| && i == Newlines(c, k))
    ensures k <= |c| ==> Newlines(c, k) < |SpansOf(c)|
  {
    if k <= |c| {
      ExactlyOneLineCovers(c, k);
      forall i | 0 <= i < |SpansOf(c)| ensures SpansOf(c)[i].start <= k <= SpansOf(c)[i].end <==> i == Newlines(c, k) {
        assert Covers(SpansOf(c)[i], k) <==> i == Newlines(c, k);
      }
    } else {
      LinesAreInFile(c);
      forall i | 0 <= i < |SpansOf(c)| ensures SpansOf(c)[i].end < k {
        assert InFile(c, i);
      }
    }
  }

  /** An offset is past the end of the lines before its own, and before the start of those after it. */
  lemma OffsetAmongLines(c: Contents, k: nat, i: nat)
    requires i < |SpansOf(c)|
    ensures k > |c| ==> k > SpansOf(c)[i].end && k > SpansOf(c)[i].start
    ensures k <= |c| && i < Newlines(c, k) ==> k > SpansOf(c)[i].end && k > SpansOf(c)[i].start
    ensures k <= |c| && i > Newlines(c, k) ==> k < SpansOf(c)[i].start
    ensures k <= |c| && i == Newlines(c, k) ==> SpansOf(c)[i].start <= k <= SpansOf(c)[i].end
  {
    SpansOfIsLineIndex(c);
    LinesAreInFile(c);
    assert InFile(c, i);
    if k <= |c| {
      LineOf(c, k);
      var n := Newlines(c, k);
      if i < n {
        LinesAreOrdered(c, SpansOf(c), i, n);
      } else if n < i {
        LinesAreOrdered(c, SpansOf(c), n, i);
      }
    }
  }

  /** Prints line `i`; the width of its number is within that of the largest if the number is. */
  method PrintLine(c: Contents, lineSpans: seq<LineSpan>, start: nat, end: nat, i: nat, largest: nat) returns (r: Option<Event>)
    requires lineSpans == SpansOf(c) && i < |lineSpans|
    ensures InFile(c, i)
    ensures i + 1 <= largest ==> r == Some(Shown(c, start, end, i, largest))
  {
    LinesAreInFile(c);
    assert InFile(c, i);
    r := PrintSourceLine(c, lineSpans[i], start, end, i + 1, largest);
    if i + 1 <= largest {
      DigitsGrow(i + 1, largest);
    }
  }

  /** The lines of the span from `first` on, the last one underlined; the index of the line it stops at. */
  method PrintSpanLines(c: Contents, lineSpans: seq<LineSpan>, start: nat, end: nat, first: nat, largest: nat)
    returns (r: Option<seq<Event>>, lineIndex: nat)
    requires lineSpans == SpansOf(c) && first < |lineSpans| && AllInFile(c)
    requires largest == if end <= |c| then Newlines(c, end) + 2 else 0
    ensures end > |c| && r.Some? ==> lineIndex == |lineSpans|
    ensures end <= |c| && Newlines(c, end) < first ==> r == Some([]) && lineIndex == first
    ensures end <= |c| && first <= Newlines(c, end) ==> r == Some(SpanLines(c, start, end, first)) && lineIndex == Newlines(c, end)
  {
    lineIndex := first;
    var events: seq<Event> := [];
    OffsetAmongLines(c, end, lineIndex);
    CoverIsLine(c, end);
    while lineIndex < |lineSpans| && end > lineSpans[lineIndex].start
      invariant first <= lineIndex <= |lineSpans|
      invariant lineIndex < |lineSpans| && (end > |c| || lineIndex < Newlines(c, end)) ==> end > lineSpans[lineIndex].start
      invariant end <= |c| && first <= Newlines(c, end) ==>
        lineIndex <= Newlines(c, end) < |lineSpans| && events == ShownLines(c, start, end, first, lineIndex, largest)
      invariant end <= |c| && Newlines(c, end) < first ==> lineIndex == first && events == [] && end <= lineSpans[lineIndex].start
    {
      OffsetAmongLines(c, end, lineIndex);
      var line := PrintLine(c, lineSpans, start, end, lineIndex, largest);
      if line.None? {
        return None, lineIndex;
      }
      events := events + [line.value];
      if end <= lineSpans[lineIndex].end {
        var underline := PrintUnderline(Digits(largest), lineSpans[lineIndex], start, end);
        if underline.None? {
          return None, lineIndex;
        }
        assert end <= |c| ==> events + [underline.value] == ShownLines(c, start, end, first, lineIndex, largest) + [line.value, underline.value];
        return Some(events + [underline.value]), lineIndex;
      }
      lineIndex := lineIndex + 1;
      if lineIndex < |lineSpans| {
        OffsetAmongLines(c, end, lineIndex);
      }
    }
    assert events + [] == events;
    r := Some(events);
  }

  /** Prints a diagnostic; None where the original stops on a checked operation. */
  method DisplayMessageWithSpan(contents: Option<Contents>, start: nat, end: nat) returns (r: Option<seq<Event>>)
    ensures contents.None? ==> r == Some([Message])
    ensures contents.Some? ==> AllInFile(contents.value)
    ensures contents.Some? ==> r == if Traps(contents.value, start, end) then None else Some(Report(contents.value, start, end))
  {
    if contents.None? {
      return Some([Message]);
    }
    var c := contents.value;
    LinesAreInFile(c);
    var lineSpans := GatherLineSpans(c);
    var errorStartIndex, largest := ScanLines(c, lineSpans, start, end);
    var width := Digits(largest);
    FirstLineOf(c, start);
    var column := CheckedSub(start, lineSpans[errorStartIndex].start);
    if column.None? {
      return None;
    }
    var head := [Message, Header(width + 2, errorStartIndex + 1, column.value + 1)];
    var before: seq<Event> := [];
    if errorStartIndex > 0 {
      var line := PrintLine(c, lineSpans, start, end, errorStartIndex - 1, largest);
      if line.None? {
        StopsEarly(c, start, end, errorStartIndex, largest);
        return None;
      }
      before := [line.value];
    }
    var lines, lineIndex := PrintSpanLines(c, lineSpans, start, end, errorStartIndex, largest);
    if lines.None? {
      return None;
    }
    if lineIndex >= |lineSpans| {
      CoverIsLine(c, end);
      return None;
    }
    OffsetAmongLines(c, end, lineIndex);
    var indent := CheckedSub(end, lineSpans[lineIndex].start);
    if indent.None? {
      return None;
    }
    var tail := Tail(width + 2, indent.value);
    lineIndex := lineIndex + 1;
    var after: seq<Event> := [];
    if lineIndex < |lineSpans| {
      var line := PrintLine(c, lineSpans, start, end, lineIndex, largest);
      if line.None? {
        return None;
      }
      after := [line.value];
    }
    r := Some(head + before + lines.value + [tail] + after + [Footer(width + 2)]);
  }

  lemma StopsEarly(c: Contents, start: nat, end: nat, first: nat, largest: nat)
    requires first == FirstLine(c, start) && largest == if end <= |c| then Newlines(c, end) + 2 else 0
    requires first > largest
    ensures Traps(c, start, end)
  {
  }

  // ----- What the report means -----

  predicate SpanIsInFile(c: Contents, start: nat, end: nat) {
    start <= end <= |c|
  }

  lemma {:induction false} NewlinesGrow(c: Contents, a: nat, b: nat)
    requires a <= b <= |c|
    ensures Newlines(c, a) <= Newlines(c, b)
  {
    if a < b {
      NewlinesGrow(c, a, b - 1);
    }
  }

  /** A span inside the file never stops the printer. */
  lemma SpansInFileNeverTrap(c: Contents, start: nat, end: nat)
    requires SpanIsInFile(c, start, end)
    ensures !Traps(c, start, end)
  {
    NewlinesGrow(c, start, end);
  }

  /** The printer stops exactly on spans that end past the file or before the line they start in. */
  lemma TrapCondition(c: Contents, start: nat, end: nat)
    ensures FirstLine(c, start) < |SpansOf(c)|
    ensures Traps(c, start, end) <==> end > |c| || (start <= |c| && end < SpansOf(c)[FirstLine(c, start)].start)
  {
    FirstLineOf(c, start);
    OffsetAmongLines(c, end, FirstLine(c, start));
  }

  /** The smallest case: one byte behind the end of an empty file. */
  lemma SpanPastEmptyFileTraps()
    ensures Traps([], 0, 1)
  {
    TrapCondition([], 0, 1);
  }

  /** A source line's number is at most `largest`, and number and padding together are as wide as it. */
  predicate Aligned(e: Event, largest: nat) {
    e.SourceLine? ==> e.number <= largest && e.padding + Digits(e.number) == Digits(largest)
  }

  lemma {:induction false} ShownLinesAreAligned(c: Contents, start: nat, end: nat, first: nat, limit: nat, largest: nat)
    requires AllInFile(c) && first <= limit <= |SpansOf(c)| && limit <= largest
    ensures forall e :: e in ShownLines(c, start, end, first, limit, largest) ==> Aligned(e, largest)
    decreases limit
  {
    if first < limit {
      ShownLinesAreAligned(c, start, end, first, limit - 1, largest);
      assert InFile(c, limit - 1);
      ShownIsAligned(c, start, end, limit - 1, largest);
    }
  }

  lemma ShownIsAligned(c: Contents, start: nat, end: nat, i: nat, largest: nat)
    requires InFile(c, i) && i + 1 <= largest
    ensures Aligned(Shown(c, start, end, i, largest), largest)
  {
    DigitsGrow(i + 1, largest);
  }

  /** The number the printer scans for is the largest it prints: one more than that of the span's last line. */
  lemma NumbersAreAligned(c: Contents, start: nat, end: nat)
    requires AllInFile(c) && !Traps(c, start, end)
    ensures forall e :: e in Report(c, start, end) ==> Aligned(e, Newlines(c, end) + 2)
  {
    LineOf(c, end);
    FirstLineOf(c, start);
    var s, first, last := SpansOf(c), FirstLine(c, start), Newlines(c, end);
    assert InFile(c, last);
    ShownLinesAreAligned(c, start, end, first, last, last + 2);
    ShownIsAligned(c, start, end, last, last + 2);
    if first > 0 {
      assert InFile(c, first - 1);
      ShownIsAligned(c, start, end, first - 1, last + 2);
    }
    if last + 1 < |s| {
      assert InFile(c, last + 1);
      ShownIsAligned(c, start, end, last + 1, last + 2);
    }
  }

  lemma {:induction false} ShownLinesShow(c: Contents, start: nat, end: nat, first: nat, limit: nat, largest: nat, i: nat)
    requires AllInFile(c) && first <= i < limit <= |SpansOf(c)| && limit <= largest
    ensures InFile(c, i) && Shown(c, start, end, i, largest) in ShownLines(c, start, end, first, limit, largest)
    decreases limit
  {
    assert InFile(c, i);
    if i < limit - 1 {
      ShownLinesShow(c, start, end, first, limit - 1, largest, i);
    }
  }

  /** The report shows the line of every byte of the span. */
  lemma EveryByteIsShown(c: Contents, start: nat, end: nat, k: nat)
    requires AllInFile(c) && SpanIsInFile(c, start, end) && start <= k < end
    ensures !Traps(c, start, end) && InFile(c, Newlines(c, k)) && Newlines(c, k) <= Newlines(c, end)
    ensures Shown(c, start, end, Newlines(c, k), Newlines(c, end) + 2) in Report(c, start, end)
  {
    NewlinesGrow(c, start, k);
    NewlinesGrow(c, k, end);
    LineOf(c, k);
    LineOf(c, end);
    var i, last := Newlines(c, k), Newlines(c, end);
    assert InFile(c, i);
    if i < last {
      ShownLinesShow(c, start, end, FirstLine(c, start), last, last + 2, i);
    }
    assert Shown(c, start, end, i, last + 2) in SpanLines(c, start, end, FirstLine(c, start));
  }

  lemma {:induction false} CellsAt(c: Contents, line: LineSpan, start: nat, end: nat, stop: nat, k: nat)
    requires line.start <= k < stop <= line.end + 1 && line.end <= |c|
    ensures |Cells(c, line, start, end, stop)| == stop - line.start
    ensures Cells(c, line, start, end, stop)[k - line.start] == CellAt(c, line, start, end, k)
    decreases stop
  {
    if k < stop - 1 {
      CellsAt(c, line, start, end, stop - 1, k);
    } else if line.start < stop - 1 {
      CellsAt(c, line, start, end, stop - 1, stop - 2);
    }
  }

  /** A shown line holds the line's bytes, coloured from the span's start to its end. */
  lemma ShownLineIsTheLine(c: Contents, start: nat, end: nat, i: nat, largest: nat, k: nat)
    requires InFile(c, i) && i + 1 <= largest && Covers(SpansOf(c)[i], k)
    ensures var line, cells := SpansOf(c)[i], Shown(c, start, end, i, largest).cells;
            && |cells| == line.end + 1 - line.start
            && (k < line.end ==> cells[k - line.start].c == c[k])
            && (cells[k - line.start].colour <==> k == start) && (cells[k - line.start].reset <==> k == end)
  {
    CellsAt(c, SpansOf(c)[i], start, end, SpansOf(c)[i].end + 1, k);
  }

  /** The rule is under exactly the span's bytes; under an empty span it is a lone corner one byte early. */
  lemma {:induction false} MarksAreUnderSpan(line: LineSpan, start: nat, end: nat, stop: nat, k: nat)
    requires line.start <= k < stop && start <= end
    ensures |Marks(line, start, end, stop)| == stop - line.start
    ensures Marks(line, start, end, stop)[k - line.start].glyph != Blank <==>
            if start < end then start <= k < end else k + 1 == end
    decreases stop
  {
    if k < stop - 1 {
      MarksAreUnderSpan(line, start, end, stop - 1, k);
    } else if line.start < stop - 1 {
      MarksAreUnderSpan(line, start, end, stop - 1, stop - 2);
    }
  }
}
