/** The index of a file's lines: half of it is found by scanning, the other half is what that means. */
module LineSpans {
  import opened Sequences

  type Byte = b: int | 0 <= b < 256

  const NEWLINE: Byte := 10

  type Contents = seq<Byte>

  /** The offset of a line's first byte and that of its newline, or of the end of the file. */
  datatype LineSpan = LineSpan(start: nat, end: nat)

  /** The lines from `start` on, of which the bytes before `idx` were seen. */
  function SpansFrom(c: Contents, start: nat, idx: nat): seq<LineSpan>
    requires start <= idx <= |c|
    decreases |c| - idx
  {
    if idx == |c| then [LineSpan(start, idx)]
    else if c[idx] == NEWLINE then [LineSpan(start, idx)] + SpansFrom(c, idx + 1, idx + 1)
    else SpansFrom(c, start, idx + 1)
  }

  function SpansOf(c: Contents): seq<LineSpan> {
    SpansFrom(c, 0, 0)
  }

  method GatherLineSpans(fileContents: Contents) returns (output: seq<LineSpan>)
    ensures output == SpansOf(fileContents)
  {
    var idx := 0;
    output := [];
    var start := idx;
    while idx < |fileContents|
      invariant start <= idx <= |fileContents|
      invariant output + SpansFrom(fileContents, start, idx) == SpansOf(fileContents)
    {
      if fileContents[idx] == NEWLINE {
        Associative(output, [LineSpan(start, idx)], SpansFrom(fileContents, idx + 1, idx + 1));
        output := output + [LineSpan(start, idx)];
        start := idx + 1;
      }
      idx := idx + 1;
    }
    if start <= idx {
      output := output + [LineSpan(start, idx)];
    }
  }

  // ----- What the index means -----

  function Newlines(c: Contents, k: nat): nat
    requires k <= |c|
  {
    if k == 0 then 0 else Newlines(c, k - 1) + if c[k - 1] == NEWLINE then 1 else 0
  }

  predicate Covers(s: LineSpan, k: nat) {
    s.start <= k <= s.end
  }

  /** The lines from `start` on: no newline inside one, one between neighbours, the last ends with the file. */
  ghost predicate AreLines(c: Contents, s: seq<LineSpan>, start: nat) {
    && |s| >= 1 && s[0].start == start && s[|s| - 1].end == |c|
    && (forall i :: 0 <= i < |s| ==> IsLine(c, s[i]))
    && (forall i :: 0 <= i < |s| - 1 ==> s[i].end < |c| && c[s[i].end] == NEWLINE && s[i + 1].start == s[i].end + 1)
  }

  ghost predicate IsLine(c: Contents, s: LineSpan) {
    s.start <= s.end <= |c| && forall k :: s.start <= k < s.end ==> c[k] != NEWLINE
  }

  ghost predicate IsLineIndex(c: Contents, s: seq<LineSpan>) {
    AreLines(c, s, 0)
  }

  lemma PrependLine(c: Contents, line: LineSpan, rest: seq<LineSpan>)
    requires IsLine(c, line) && line.end < |c| && c[line.end] == NEWLINE && AreLines(c, rest, line.end + 1)
    ensures AreLines(c, [line] + rest, line.start)
  {
    var s := [line] + rest;
    forall i | 0 <= i < |s| - 1 ensures s[i].end < |c| && c[s[i].end] == NEWLINE && s[i + 1].start == s[i].end + 1 {
      if i > 0 {
        assert s[i] == rest[i - 1] && s[i + 1] == rest[i - 1 + 1];
      }
    }
  }

  lemma {:induction false} SpansAreLines(c: Contents, start: nat, idx: nat)
    requires start <= idx <= |c| && (forall k :: start <= k < idx ==> c[k] != NEWLINE)
    ensures AreLines(c, SpansFrom(c, start, idx), start)
    decreases |c| - idx
  {
    if idx < |c| {
      if c[idx] == NEWLINE {
        SpansAreLines(c, idx + 1, idx + 1);
        PrependLine(c, LineSpan(start, idx), SpansFrom(c, idx + 1, idx + 1));
      } else {
        SpansAreLines(c, start, idx + 1);
      }
    }
  }

  /** Lines are in order: each starts after all earlier ones have ended. */
  lemma {:induction false} LinesAreOrdered(c: Contents, s: seq<LineSpan>, i: nat, j: nat)
    requires IsLineIndex(c, s) && i < j < |s|
    ensures s[i].end < s[j].start
    decreases j - i
  {
    if i + 1 < j {
      LinesAreOrdered(c, s, i + 1, j);
    }
  }

  /** A line starts after as many newlines as there are lines before it. */
  lemma {:induction false} NewlinesBeforeLine(c: Contents, s: seq<LineSpan>, i: nat, k: nat)
    requires IsLineIndex(c, s) && i < |s| && Covers(s[i], k)
    ensures k <= |c| && Newlines(c, k) == i
    decreases i, k
  {
    if k > s[i].start {
      assert IsLine(c, s[i]);
      NewlinesBeforeLine(c, s, i, k - 1);
    } else if i > 0 {
      assert s[i - 1 + 1].start == s[i - 1].end + 1;
      NewlinesBeforeLine(c, s, i - 1, s[i - 1].end);
    }
  }

  /** Some line covers every offset. */
  lemma {:induction false} SomeLineCovers(c: Contents, s: seq<LineSpan>, k: nat) returns (i: nat)
    requires IsLineIndex(c, s) && k <= |c|
    ensures i < |s| && Covers(s[i], k)
  {
    i := 0;
    while s[i].end < k
      invariant i < |s| && s[i].start <= k
      decreases |s| - i
    {
      i := i + 1;
    }
  }

  lemma SpansOfIsLineIndex(c: Contents)
    ensures IsLineIndex(c, SpansOf(c))
  {
    SpansAreLines(c, 0, 0);
  }

  /** Every offset up to and including the file's size is in exactly one line: the one after as many newlines. */
  lemma ExactlyOneLineCovers(c: Contents, k: nat)
    requires k <= |c|
    ensures forall i :: 0 <= i < |SpansOf(c)| ==> (Covers(SpansOf(c)[i], k) <==> i == Newlines(c, k))
    ensures Newlines(c, k) < |SpansOf(c)|
  {
    var s := SpansOf(c);
    SpansOfIsLineIndex(c);
    var found := SomeLineCovers(c, s, k);
    NewlinesBeforeLine(c, s, found, k);
    forall i | 0 <= i < |s| && Covers(s[i], k) ensures i == Newlines(c, k) {
      NewlinesBeforeLine(c, s, i, k);
    }
  }

  function Line(c: Contents, s: LineSpan): Contents
    requires s.start <= s.end <= |c|
  {
    c[s.start..s.end]
  }

  /** The lines joined with newlines. */
  function Joined(c: Contents, s: seq<LineSpan>): Contents
    requires forall i :: 0 <= i < |s| ==> s[i].start <= s[i].end <= |c|
  {
    if |s| == 0 then []
    else if |s| == 1 then Line(c, s[0])
    else Line(c, s[0]) + [NEWLINE] + Joined(c, s[1..])
  }

  lemma {:induction false} JoiningFrom(c: Contents, start: nat, idx: nat)
    requires start <= idx <= |c| && (forall k :: start <= k < idx ==> c[k] != NEWLINE)
    ensures forall i :: 0 <= i < |SpansFrom(c, start, idx)| ==> SpansFrom(c, start, idx)[i].start <= SpansFrom(c, start, idx)[i].end <= |c|
    ensures Joined(c, SpansFrom(c, start, idx)) == c[start..]
    decreases |c| - idx
  {
    SpansAreLines(c, start, idx);
    if idx < |c| {
      if c[idx] == NEWLINE {
        JoiningFrom(c, idx + 1, idx + 1);
        var rest := SpansFrom(c, idx + 1, idx + 1);
        assert ([LineSpan(start, idx)] + rest)[1..] == rest;
        assert c[start..] == c[start..idx] + [c[idx]] + c[idx + 1..];
      } else {
        JoiningFrom(c, start, idx + 1);
      }
    }
  }

  /** No byte is lost or invented: the lines joined with newlines are the file. */
  lemma JoiningRestoresFile(c: Contents)
    ensures forall i :: 0 <= i < |SpansOf(c)| ==> SpansOf(c)[i].start <= SpansOf(c)[i].end <= |c|
    ensures Joined(c, SpansOf(c)) == c
  {
    JoiningFrom(c, 0, 0);
    assert c[0..] == c;
  }
}
