/** What a diagnostic looks like, event by event, told from the file's bytes rather than from the line index. */
module ReportLayout {
  import opened LineSpans
  import opened Diagnostics
  import opened SourceLocations

  /** The bytes from `p` to `q` are line number `n`, counted from 0. */
  ghost predicate IsLineAt(c: Contents, n: nat, p: nat, q: nat) {
    && p <= q <= |c| && Newlines(c, p) == n
    && (p == 0 || c[p - 1] == NEWLINE) && (q == |c| || c[q] == NEWLINE)
    && forall k :: p <= k < q ==> c[k] != NEWLINE
  }

  /** The index holds exactly the lines. */
  lemma IndexedExactly(c: Contents, n: nat, p: nat, q: nat)
    ensures IsLineAt(c, n, p, q) <==> n < |SpansOf(c)| && SpansOf(c)[n] == LineSpan(p, q)
  {
    var s := SpansOf(c);
    SpansOfIsLineIndex(c);
    if n < |s| && s[n] == LineSpan(p, q) {
      assert IsLine(c, s[n]);
      NewlinesBeforeLine(c, s, n, p);
      assert n > 0 ==> s[n - 1 + 1].start == s[n - 1].end + 1;
    }
    if IsLineAt(c, n, p, q) {
      ExactlyOneLineCovers(c, p);
      assert Covers(s[n], p) && IsLine(c, s[n]);
      assert n < |s| - 1 ==> c[s[n].end] == NEWLINE;
    }
  }

  /** Every offset is in a line, the one with as many newlines before it. */
  lemma EveryOffsetHasALine(c: Contents, k: nat)
    requires k <= |c|
    ensures exists p: nat, q: nat :: IsLineAt(c, Newlines(c, k), p, q) && p <= k <= q
  {
    LineOf(c, k);
    var line := SpansOf(c)[Newlines(c, k)];
    IndexedExactly(c, Newlines(c, k), line.start, line.end);
  }

  /** The line's bytes and a blank, or a mark there for a span of no bytes, coloured from `start` to `end`. */
  predicate HoldsLine(cells: seq<Cell>, c: Contents, start: nat, end: nat, p: nat, q: nat)
    requires p <= q <= |c|
  {
    && |cells| == q - p + 1
    && (forall j :: 0 <= j < q - p ==> cells[j].c == c[p + j])
    && cells[q - p].c == (if start == q && end == q then UNDERSCORE else SPACE)
    && forall j :: 0 <= j < |cells| ==> (cells[j].colour <==> p + j == start) && (cells[j].reset <==> p + j == end)
  }

  ghost predicate ShowsLine(e: Event, c: Contents, start: nat, end: nat, n: nat, width: nat) {
    && e.SourceLine? && e.number == n + 1 && e.padding + Digits(n + 1) == width
    && exists p: nat, q: nat :: IsLineAt(c, n, p, q) && HoldsLine(e.cells, c, start, end, p, q)
  }

  /** The rule under the line from `p` to `q`: from the span's start on, to a corner under its last byte. */
  predicate MarksLine(marks: seq<Mark>, start: nat, end: nat, p: nat, q: nat)
    requires p <= q
  {
    && |marks| == q - p
    && forall j :: 0 <= j < |marks| ==>
         && (marks[j].colour <==> p + j == start)
         && (marks[j].glyph == Corner <==> p + j + 1 == end)
         && (marks[j].glyph == Dash <==> start <= p + j < end - 1)
  }

  lemma {:induction false} MarksAt(line: LineSpan, start: nat, end: nat, stop: nat)
    requires line.start <= stop
    ensures MarksLine(Marks(line, start, end, stop), start, end, line.start, stop)
    decreases stop
  {
    if line.start < stop {
      MarksAt(line, start, end, stop - 1);
    }
  }

  lemma ShownShows(c: Contents, start: nat, end: nat, i: nat, largest: nat)
    requires InFile(c, i) && i + 1 <= largest
    ensures ShowsLine(Shown(c, start, end, i, largest), c, start, end, i, Digits(largest))
  {
    var line := SpansOf(c)[i];
    IndexedExactly(c, i, line.start, line.end);
    DigitsGrow(i + 1, largest);
    CellsHoldLine(c, line, start, end);
    hide Cells, HoldsLine, IsLineAt;
  }

  lemma CellsHoldLine(c: Contents, line: LineSpan, start: nat, end: nat)
    requires line.start <= line.end <= |c|
    ensures HoldsLine(Cells(c, line, start, end, line.end + 1), c, start, end, line.start, line.end)
  {
    var cells := Cells(c, line, start, end, line.end + 1);
    CellsAt(c, line, start, end, line.end + 1, line.start);
    forall j | 0 <= j < |cells| ensures cells[j] == CellAt(c, line, start, end, line.start + j) {
      CellsAt(c, line, start, end, line.end + 1, line.start + j);
    }
    hide Cells;
  }


  lemma {:induction false} ShownLinesAt(c: Contents, start: nat, end: nat, first: nat, limit: nat, largest: nat)
    requires AllInFile(c) && first <= limit <= |SpansOf(c)| && limit <= largest
    ensures |ShownLines(c, start, end, first, limit, largest)| == limit - first
    ensures ShowLines(ShownLines(c, start, end, first, limit, largest), c, start, end, first, Digits(largest))
    decreases limit
  {
    if first < limit {
      ShownLinesAt(c, start, end, first, limit - 1, largest);
      assert InFile(c, limit - 1);
      ShownShows(c, start, end, limit - 1, largest);
      var lines, line := ShownLines(c, start, end, first, limit - 1, largest), Shown(c, start, end, limit - 1, largest);
      assert ShownLines(c, start, end, first, limit, largest) == lines + [line];
      OneMoreLine(lines, line, c, start, end, first, Digits(largest));
    }
  }

  /** Consecutive lines from `first` on. */
  ghost predicate ShowLines(lines: seq<Event>, c: Contents, start: nat, end: nat, first: nat, width: nat) {
    forall i :: 0 <= i < |lines| ==> ShowsLine(lines[i], c, start, end, first + i, width)
  }

  lemma OneMoreLine(lines: seq<Event>, line: Event, c: Contents, start: nat, end: nat, first: nat, width: nat)
    requires ShowLines(lines, c, start, end, first, width) && ShowsLine(line, c, start, end, first + |lines|, width)
    ensures ShowLines(lines + [line], c, start, end, first, width)
  {
    hide ShowsLine;
  }

  lemma OneLineBefore(lines: seq<Event>, line: Event, c: Contents, start: nat, end: nat, first: nat, width: nat)
    requires first > 0 && ShowLines(lines, c, start, end, first, width) && ShowsLine(line, c, start, end, first - 1, width)
    ensures ShowLines([line] + lines, c, start, end, first - 1, width)
  {
    hide ShowsLine;
  }

  /** The lines of the span: the last one only if the span reaches beyond its start, and then with a rule behind it. */
  ghost predicate AreSpanLines(lines: seq<Event>, rule: seq<Event>, c: Contents, start: nat, end: nat, first: nat, last: nat,
                               p: nat, q: nat, width: nat)
    requires p <= q && first <= last
  {
    && |lines| == (if end > p then last + 1 else last) - first
    && ShowLines(lines, c, start, end, first, width)
    && |rule| == (if end > p then 1 else 0)
    && (end > p ==> rule[0].Underline? && rule[0].indent == width + 2 && MarksLine(rule[0].marks, start, end, p, q))
  }

  lemma SpanLinesAt(c: Contents, start: nat, end: nat, first: nat, p: nat, q: nat) returns (lines: seq<Event>, rule: seq<Event>)
    requires AllInFile(c) && end <= |c| && first <= Newlines(c, end) && IsLineAt(c, Newlines(c, end), p, q)
    ensures SpanLines(c, start, end, first) == lines + rule
    ensures AreSpanLines(lines, rule, c, start, end, first, Newlines(c, end), p, q, Digits(Newlines(c, end) + 2))
  {
    var last := Newlines(c, end);
    IndexedExactly(c, last, p, q);
    LineOf(c, end);
    assert InFile(c, last);
    ShownLinesAt(c, start, end, first, last, last + 2);
    lines, rule := ShownLines(c, start, end, first, last, last + 2), [];
    if end > p {
      var line := Shown(c, start, end, last, last + 2);
      ShownShows(c, start, end, last, last + 2);
      MarksAt(LineSpan(p, q), start, end, q);
      OneMoreLine(lines, line, c, start, end, first, Digits(last + 2));
      rule := [Underline(Digits(last + 2) + 2, Marks(LineSpan(p, q), start, end, q))];
      assert lines + [line] + rule == lines + [line, rule[0]];
      lines := lines + [line];
    } else {
      assert lines + rule == lines;
    }
  }

  /** The report's parts, in order. */
  ghost predicate IsLaidOut(r: seq<Event>, lines: seq<Event>, rule: seq<Event>, after: seq<Event>,
                            c: Contents, start: nat, end: nat, first: nat, last: nat, p: nat, p': nat, q': nat, width: nat)
    requires p <= start && p' <= end && p' <= q' <= |c| && first <= last
  {
    && r == [Message, Header(width + 2, first + 1, start - p + 1)] + lines + rule + [Tail(width + 2, end - p')] + after + [Footer(width + 2)]
    && (if first == 0 then AreSpanLines(lines, rule, c, start, end, first, last, p', q', width)
        else |lines| > 0 && ShowsLine(lines[0], c, start, end, first - 1, width)
             && AreSpanLines(lines[1..], rule, c, start, end, first, last, p', q', width))
    && |after| == (if q' < |c| then 1 else 0)
    && (q' < |c| ==> ShowsLine(after[0], c, start, end, last + 1, width))
  }

  /**
   The report of a span whose start's line is number `first` and begins at `p`, and whose end's line is
   number `last` and goes from `p'` to `q'`: location, line before and span's lines, rule, tail, line after.
   */
  ghost predicate IsReport(r: seq<Event>, c: Contents, start: nat, end: nat, first: nat, last: nat,
                           p: nat, p': nat, q': nat, width: nat)
    requires p <= start && p' <= end && p' <= q' <= |c| && first <= last
  {
    exists lines, rule, after :: IsLaidOut(r, lines, rule, after, c, start, end, first, last, p, p', q', width)
  }

  /** Every report of a span that stops no check is laid out so. */
  lemma ReportIsLaidOut(c: Contents, start: nat, end: nat, p: nat, q: nat, p': nat, q': nat)
    requires end <= |c| && (start <= |c| ==> Newlines(c, start) <= Newlines(c, end))
    requires IsLineAt(c, if start <= |c| then Newlines(c, start) else 0, p, q) && IsLineAt(c, Newlines(c, end), p', q')
    ensures AllInFile(c) && !Traps(c, start, end) && p <= start && p' <= end
    ensures IsReport(Report(c, start, end), c, start, end, if start <= |c| then Newlines(c, start) else 0, Newlines(c, end),
              p, p', q', Digits(Newlines(c, end) + 2))
  {
    LinesAreInFile(c);
    FirstLineOf(c, start);
    LineOf(c, end);
    var s, first, last := SpansOf(c), FirstLine(c, start), Newlines(c, end);
    IndexedExactly(c, first, p, q);
    IndexedExactly(c, last, p', q');
    LastLineEndsFile(c, last);
    var lines, rule := SpanLinesAt(c, start, end, first, p', q');
    var before, after := LinesAround(c, start, end, first, last);
    hide *;
    ReportParts(c, start, end, first, last, p, p', before, SpanLines(c, start, end, first), after);
    Assembled(Report(c, start, end), before, lines, rule, after, c, start, end, first, last, p, p', q', Digits(last + 2));
  }

  lemma LinesAround(c: Contents, start: nat, end: nat, first: nat, last: nat) returns (before: seq<Event>, after: seq<Event>)
    requires first <= last < |SpansOf(c)|
    ensures AreAround(before, after, c, start, end, first, last)
    ensures |before| == (if first > 0 then 1 else 0) && (first > 0 ==> ShowsLine(before[0], c, start, end, first - 1, Digits(last + 2)))
    ensures |after| == (if last + 1 < |SpansOf(c)| then 1 else 0) && (last + 1 < |SpansOf(c)| ==> ShowsLine(after[0], c, start, end, last + 1, Digits(last + 2)))
  {
    before, after := [], [];
    if first > 0 {
      var line := OneLine(c, start, end, first - 1, last + 2);
      before := [line];
    }
    if last + 1 < |SpansOf(c)| {
      var line := OneLine(c, start, end, last + 1, last + 2);
      after := [line];
    }
    hide Shown, SpansOf, ShowsLine;
  }

  ghost predicate AreAround(before: seq<Event>, after: seq<Event>, c: Contents, start: nat, end: nat, first: nat, last: nat)
    requires first <= last
  {
    && (if first > 0 then InFile(c, first - 1) && before == [Shown(c, start, end, first - 1, last + 2)] else before == [])
    && (if last + 1 < |SpansOf(c)| then InFile(c, last + 1) && after == [Shown(c, start, end, last + 1, last + 2)] else after == [])
  }

  lemma ReportParts(c: Contents, start: nat, end: nat, first: nat, last: nat, p: nat, p': nat,
                    before: seq<Event>, lines: seq<Event>, after: seq<Event>)
    requires AllInFile(c) && !Traps(c, start, end) && p <= start && p' <= end
    requires first == FirstLine(c, start) && last == Newlines(c, end) && first <= last < |SpansOf(c)|
    requires SpansOf(c)[first].start == p && SpansOf(c)[last].start == p'
    requires AreAround(before, after, c, start, end, first, last) && lines == SpanLines(c, start, end, first)
    ensures var width := Digits(last + 2);
      Report(c, start, end) == [Message, Header(width + 2, first + 1, start - p + 1)] + before + lines
        + [Tail(width + 2, end - p')] + after + [Footer(width + 2)]
  {
    hide SpanLines, Shown, SpansOf, Newlines;
  }

  lemma OneLine(c: Contents, start: nat, end: nat, i: nat, largest: nat) returns (e: Event)
    requires i < |SpansOf(c)| && i + 1 <= largest
    ensures InFile(c, i) && e == Shown(c, start, end, i, largest)
    ensures ShowsLine(e, c, start, end, i, Digits(largest))
  {
    LinesAreInFile(c);
    assert InFile(c, i);
    e := Shown(c, start, end, i, largest);
    ShownShows(c, start, end, i, largest);
  }

  lemma Assembled(r: seq<Event>, before: seq<Event>, lines: seq<Event>, rule: seq<Event>, after: seq<Event>,
                  c: Contents, start: nat, end: nat, first: nat, last: nat, p: nat, p': nat, q': nat, width: nat)
    requires p <= start && p' <= end && p' <= q' <= |c| && first <= last
    requires r == [Message, Header(width + 2, first + 1, start - p + 1)] + before + (lines + rule) + [Tail(width + 2, end - p')] + after + [Footer(width + 2)]
    requires |before| == (if first > 0 then 1 else 0) && (first > 0 ==> ShowsLine(before[0], c, start, end, first - 1, width))
    requires AreSpanLines(lines, rule, c, start, end, first, last, p', q', width)
    requires |after| == (if q' < |c| then 1 else 0) && (q' < |c| ==> ShowsLine(after[0], c, start, end, last + 1, width))
    ensures IsReport(r, c, start, end, first, last, p, p', q', width)
  {
    hide ShowsLine, AreSpanLines;
    var head := [Message, Header(width + 2, first + 1, start - p + 1)];
    assert head + before + (lines + rule) == head + (before + lines) + rule;
    if first > 0 {
      assert (before + lines)[1..] == lines;
    } else {
      assert before + lines == lines;
    }
    assert IsLaidOut(r, before + lines, rule, after, c, start, end, first, last, p, p', q', width);
  }

  lemma LastLineEndsFile(c: Contents, n: nat)
    requires n < |SpansOf(c)|
    ensures n + 1 < |SpansOf(c)| <==> SpansOf(c)[n].end < |c|
  {
    SpansOfIsLineIndex(c);
  }

  // ----- In particular -----

  /** The location names the line of the span's first byte and that byte's column, both counted from 1. */
  lemma HeaderNamesTheLocation(c: Contents, start: nat, end: nat)
    requires start <= |c| && end <= |c| && Newlines(c, start) <= Newlines(c, end)
    ensures AllInFile(c) && !Traps(c, start, end) && |Report(c, start, end)| > 1
    ensures var h := Report(c, start, end)[1];
      && h.Header? && h.line == 1 + Newlines(c, start) && 1 <= h.column <= start + 1
      && (h.column == start + 1 || c[start - h.column] == NEWLINE)
      && forall k :: start - h.column < k < start ==> c[k] != NEWLINE
  {
    EveryOffsetHasALine(c, start);
    EveryOffsetHasALine(c, end);
    var p: nat, q: nat :| IsLineAt(c, Newlines(c, start), p, q) && p <= start <= q;
    var p': nat, q': nat :| IsLineAt(c, Newlines(c, end), p', q') && p' <= end <= q';
    hide *;
    HeaderAt(c, start, end, p, q, p', q');
  }

  lemma HeaderAt(c: Contents, start: nat, end: nat, p: nat, q: nat, p': nat, q': nat)
    requires start <= |c| && end <= |c| && Newlines(c, start) <= Newlines(c, end)
    requires IsLineAt(c, Newlines(c, start), p, q) && p <= start <= q && IsLineAt(c, Newlines(c, end), p', q') && p' <= end <= q'
    ensures AllInFile(c) && !Traps(c, start, end) && |Report(c, start, end)| > 1
    ensures var h := Report(c, start, end)[1];
      && h.Header? && h.line == 1 + Newlines(c, start) && 1 <= h.column <= start + 1
      && (h.column == start + 1 || c[start - h.column] == NEWLINE)
      && forall k :: start - h.column < k < start ==> c[k] != NEWLINE
  {
    hide Report, IsReport, Traps, AllInFile, Newlines, Digits, SpansOf;
    ReportIsLaidOut(c, start, end, p, q, p', q');
    LineBegins(c, Newlines(c, start), p, q, start);
    hide IsLineAt;
    HeaderOf(Report(c, start, end), c, start, end, Newlines(c, start), Newlines(c, end), p, p', q', Digits(Newlines(c, end) + 2));
  }

  lemma LineBegins(c: Contents, n: nat, p: nat, q: nat, k: nat)
    requires IsLineAt(c, n, p, q) && p <= k <= q
    ensures (p == 0 || c[p - 1] == NEWLINE) && forall j :: p <= j < k ==> c[j] != NEWLINE
  {
  }

  lemma HeaderOf(r: seq<Event>, c: Contents, start: nat, end: nat, first: nat, last: nat, p: nat, p': nat, q': nat, width: nat)
    requires p <= start && p' <= end && p' <= q' <= |c| && first <= last
    requires IsReport(r, c, start, end, first, last, p, p', q', width)
    ensures |r| > 1 && r[1] == Header(width + 2, first + 1, start - p + 1)
  {
    hide AreSpanLines, ShowsLine;
  }

  /**
   The line that the debug information gives for an offset is the line that a diagnostic starting there
   names; it gives none where the diagnostic does, behind a newline that ends the file.
   */
  lemma DebugLineIsReportedLine(files: map<nat, File>, file: nat, start: nat, end: nat)
    requires file in files && files[file].name != PRELUDE
    requires SpanIsInFile(files[file].contents, start, end)
    ensures AllInFile(files[file].contents) && !Traps(files[file].contents, start, end)
    ensures |Report(files[file].contents, start, end)| > 1 && Report(files[file].contents, start, end)[1].Header?
    ensures var c := files[file].contents;
            LocationOf(files, file, start) ==
            if start == |c| && (c == [] || c[|c| - 1] == NEWLINE) then Panicked else AtLine(Report(c, start, end)[1].line)
  {
    NewlinesGrow(files[file].contents, start, end);
    HeaderNamesTheLocation(files[file].contents, start, end);
    hide Report;
  }

  /** The number of the source line that an event prints, counted from 0. */
  ghost predicate Prints(r: seq<Event>, i: nat, n: nat) {
    i < |r| && r[i].SourceLine? && r[i].number == n + 1
  }

  ghost predicate IsPrinted(r: seq<Event>, n: nat) {
    exists i: nat :: Prints(r, i, n)
  }

  lemma PrintsAt(r: seq<Event>, lines: seq<Event>, rule: seq<Event>, after: seq<Event>, c: Contents, start: nat, end: nat,
                 first: nat, last: nat, p: nat, p': nat, q': nat, width: nat, i: nat)
    requires p <= start && p' <= end && p' <= q' <= |c| && first <= last
    requires IsLaidOut(r, lines, rule, after, c, start, end, first, last, p, p', q', width) && i < |r|
    ensures var from, b := if first > 0 then first - 1 else 0, if first > 0 then 1 else 0;
      && |lines| == b + (if end > p' then last + 1 else last) - first
      && |r| == |lines| + |rule| + |after| + 4
      && (2 <= i < 2 + |lines| ==> Prints(r, i, from + i - 2))
      && (i == 3 + |lines| + |rule| && |after| == 1 ==> Prints(r, i, last + 1))
      && (r[i].SourceLine? ==> 2 <= i < 2 + |lines| || (i == 3 + |lines| + |rule| && |after| == 1))
  {
    var b := if first > 0 then 1 else 0;
    if 2 <= i < 2 + |lines| {
      assert r[i] == lines[i - 2];
      if i - 2 >= b {
        assert lines[i - 2] == lines[b..][i - 2 - b];
      }
    }
    hide IsLineAt, HoldsLine, MarksLine;
  }

  /**
   Exactly these lines are printed, each after those before it: that before the span's first, the span's,
   and the one after its last. The last itself is not printed if the span ends at its start.
   */
  lemma PrintedExactly(c: Contents, start: nat, end: nat, p: nat, q: nat)
    requires start <= |c| && end <= |c| && Newlines(c, start) <= Newlines(c, end) && IsLineAt(c, Newlines(c, end), p, q)
    ensures AllInFile(c) && !Traps(c, start, end)
    ensures var r, first, last := Report(c, start, end), Newlines(c, start), Newlines(c, end);
      && (forall n: nat :: IsPrinted(r, n) <==>
            n <= Newlines(c, |c|) && first <= n + 1 && n <= last + 1 && (n == last ==> end > p))
      && forall i: nat, j: nat, m: nat, n: nat :: i < j && Prints(r, i, m) && Prints(r, j, n) ==> m < n
  {
    EveryOffsetHasALine(c, start);
    var p0: nat, q0: nat :| IsLineAt(c, Newlines(c, start), p0, q0) && p0 <= start <= q0;
    ReportIsLaidOut(c, start, end, p0, q0, p, q);
    var r, first, last := Report(c, start, end), Newlines(c, start), Newlines(c, end);
    var lines, rule, after :| IsLaidOut(r, lines, rule, after, c, start, end, first, last, p0, p, q, Digits(last + 2));
    LinesOfFile(c, last, p, q);
    hide *;
    PrintedIn(r, lines, rule, after, c, start, end, first, last, p0, p, q, Digits(last + 2));
  }

  lemma LinesOfFile(c: Contents, n: nat, p: nat, q: nat)
    requires IsLineAt(c, n, p, q)
    ensures n <= Newlines(c, |c|) && (n == Newlines(c, |c|) <==> q == |c|)
  {
    NewlinesGrow(c, p, |c|);
    IndexedExactly(c, n, p, q);
    ExactlyOneLineCovers(c, |c|);
    LinesAreInFile(c);
    assert InFile(c, n);
    assert Covers(SpansOf(c)[n], |c|) <==> n == Newlines(c, |c|);
  }

  lemma PrintedIn(r: seq<Event>, lines: seq<Event>, rule: seq<Event>, after: seq<Event>, c: Contents, start: nat, end: nat,
                  first: nat, last: nat, p0: nat, p: nat, q: nat, width: nat)
    requires p0 <= start && p <= end && p <= q <= |c| && first <= last <= Newlines(c, |c|)
    requires IsLaidOut(r, lines, rule, after, c, start, end, first, last, p0, p, q, width)
    requires last == Newlines(c, |c|) <==> q == |c|
    ensures forall n: nat :: IsPrinted(r, n) <==>
              n <= Newlines(c, |c|) && first <= n + 1 && n <= last + 1 && (n == last ==> end > p)
    ensures forall i: nat, j: nat, m: nat, n: nat :: i < j && Prints(r, i, m) && Prints(r, j, n) ==> m < n
  {
    var count, all := |lines|, Newlines(c, |c|);
    var from := if first > 0 then first - 1 else 0;
    assert |after| == if last < all then 1 else 0;
    var behind := 3 + |lines| + |rule|;
    assert |r| == behind + |after| + 1 && count == (if end > p then last + 1 else last) - from by {
      PrintsAt(r, lines, rule, after, c, start, end, first, last, p0, p, q, width, 0);
    }
    forall i: nat, n: nat ensures Prints(r, i, n) <==> (2 <= i < 2 + count && n == from + i - 2) || (i == behind && last < all && n == last + 1) {
      if i < |r| {
        PrintsAt(r, lines, rule, after, c, start, end, first, last, p0, p, q, width, i);
      }
    }
    hide AreSpanLines, ShowsLine, Newlines, IsLaidOut;
    forall n: nat ensures IsPrinted(r, n) <==> n <= all && first <= n + 1 && n <= last + 1 && (n == last ==> end > p) {
      if n <= all && first <= n + 1 && n <= last + 1 && (n == last ==> end > p) {
        assert Prints(r, if n == last + 1 then behind else 2 + n - from, n);
      }
    }
  }
}
