/** The code generator's own line index, which leaves out an empty last line, and its lookup. */
module SourceLocations {
  import opened LineSpans
  import opened Sequences

  datatype File = File(name: string, contents: Contents)

  datatype Location = NoFile | AtLine(line: nat) | Panicked

  const PRELUDE := "__prelude__"

  /** Like `SpansFrom`, except at the end of the file. */
  function ShortFrom(c: Contents, start: nat, idx: nat): seq<LineSpan>
    requires start <= idx <= |c|
    decreases |c| - idx
  {
    if idx == |c| then (if start < idx then [LineSpan(start, idx)] else [])
    else if c[idx] == NEWLINE then [LineSpan(start, idx)] + ShortFrom(c, idx + 1, idx + 1)
    else ShortFrom(c, start, idx + 1)
  }

  predicate EndsInEmptyLine(c: Contents) {
    c == [] || c[|c| - 1] == NEWLINE
  }

  lemma {:induction false} ShortFromIsPrefix(c: Contents, start: nat, idx: nat)
    requires start <= idx <= |c|
    requires forall k :: start <= k < idx ==> c[k] != NEWLINE
    requires start == 0 || c[start - 1] == NEWLINE
    ensures SpansFrom(c, start, idx) == ShortFrom(c, start, idx) + if EndsInEmptyLine(c) then [LineSpan(|c|, |c|)] else []
    decreases |c| - idx
  {
    if idx == |c| {
      assert EndsInEmptyLine(c) <==> start == idx;
    } else if c[idx] == NEWLINE {
      ShortFromIsPrefix(c, idx + 1, idx + 1);
    } else {
      ShortFromIsPrefix(c, start, idx + 1);
    }
  }

  /** The two indexes differ in the empty last line and in nothing else. */
  lemma ShortIsAllButEmptyLast(c: Contents)
    ensures SpansOf(c) == ShortFrom(c, 0, 0) + if EndsInEmptyLine(c) then [LineSpan(|c|, |c|)] else []
  {
    ShortFromIsPrefix(c, 0, 0);
  }

  function IndexOf(files: map<nat, File>): map<nat, seq<LineSpan>> {
    map f | f in files && files[f].name != PRELUDE :: ShortFrom(files[f].contents, 0, 0)
  }

  /** The line of an offset, counted from 1; there is none after an empty last line's newline, nor past the end. */
  function LocationOf(files: map<nat, File>, file: nat, offset: nat): Location {
    if file !in files || files[file].name == PRELUDE then NoFile
    else
      var c := files[file].contents;
      if offset < |c| || (offset == |c| && !EndsInEmptyLine(c)) then AtLine(1 + Newlines(c, offset)) else Panicked
  }

  lemma FirstCoverIsLocation(c: Contents, offset: nat, lineIndex: nat)
    requires lineIndex <= |ShortFrom(c, 0, 0)|
    requires forall i :: 0 <= i < lineIndex ==> !Covers(ShortFrom(c, 0, 0)[i], offset)
    ensures lineIndex < |ShortFrom(c, 0, 0)| && Covers(ShortFrom(c, 0, 0)[lineIndex], offset) ==>
              (offset < |c| || (offset == |c| && !EndsInEmptyLine(c))) && lineIndex == Newlines(c, offset)
    ensures lineIndex == |ShortFrom(c, 0, 0)| ==> !(offset < |c| || (offset == |c| && !EndsInEmptyLine(c)))
  {
    var s, full := ShortFrom(c, 0, 0), SpansOf(c);
    ShortIsAllButEmptyLast(c);
    SpansOfIsLineIndex(c);
    assert forall i :: 0 <= i < |s| ==> full[i] == s[i];
    if offset <= |c| {
      ExactlyOneLineCovers(c, offset);
      var n := Newlines(c, offset);
      assert Covers(full[n], offset);
      if n < |s| {
        assert s[n] == full[n];
      }
      if EndsInEmptyLine(c) {
        assert full[|s|] == LineSpan(|c|, |c|);
      }
    } else {
      forall i | 0 <= i < |s| ensures !Covers(s[i], offset) {
        assert IsLine(c, full[i]);
      }
    }
  }

  class CodegenDebugInfo {
    var lineSpans: map<nat, seq<LineSpan>>

    constructor ()
      ensures lineSpans == map[]
    {
      lineSpans := map[];
    }

    /** Indexes every file but the prelude, in any order. */
    method GatherLineSpans(files: map<nat, File>)
      requires lineSpans == map[]
      modifies this
      ensures lineSpans == IndexOf(files)
    {
      var left := files.Keys;
      while left != {}
        invariant left <= files.Keys
        invariant lineSpans == IndexOf(files - left)
        decreases left
      {
        var file: nat :| file in left;
        if files[file].name != PRELUDE {
          GatherFile(file, files[file].contents);
        }
        left := left - {file};
      }
      assert files - {} == files;
    }

    method GatherFile(file: nat, contents: Contents)
      modifies this
      ensures lineSpans == old(lineSpans)[file := ShortFrom(contents, 0, 0)]
    {
      lineSpans := lineSpans[file := []];
      var idx := 0;
      var start := idx;
      while idx < |contents|
        invariant start <= idx <= |contents|
        invariant lineSpans.Keys == old(lineSpans).Keys + {file}
        invariant forall f :: f in old(lineSpans) && f != file ==> lineSpans[f] == old(lineSpans)[f]
        invariant lineSpans[file] + ShortFrom(contents, start, idx) == ShortFrom(contents, 0, 0)
      {
        if contents[idx] == NEWLINE {
          Associative(lineSpans[file], [LineSpan(start, idx)], ShortFrom(contents, idx + 1, idx + 1));
          lineSpans := lineSpans[file := lineSpans[file] + [LineSpan(start, idx)]];
          start := idx + 1;
        }
        idx := idx + 1;
      }
      if start < idx {
        lineSpans := lineSpans[file := lineSpans[file] + [LineSpan(start, idx)]];
      }
      assert lineSpans[file] == ShortFrom(contents, 0, 0);
      assert lineSpans == old(lineSpans)[file := ShortFrom(contents, 0, 0)];
    }

    method SpanToSourceLocation(files: map<nat, File>, file: nat, start: nat) returns (location: Location)
      requires lineSpans == map[] || lineSpans == IndexOf(files)
      modifies this
      ensures lineSpans == IndexOf(files)
      ensures location == LocationOf(files, file, start)
    {
      if lineSpans == map[] {
        GatherLineSpans(files);
      }
      if file !in lineSpans {
        return NoFile;
      }
      var lineIndex := 0;
      while lineIndex < |lineSpans[file]|
        invariant lineIndex <= |lineSpans[file]|
        invariant forall i :: 0 <= i < lineIndex ==> !Covers(lineSpans[file][i], start)
      {
        if start >= lineSpans[file][lineIndex].start && start <= lineSpans[file][lineIndex].end {
          FirstCoverIsLocation(files[file].contents, start, lineIndex);
          return AtLine(lineIndex + 1);
        }
        lineIndex := lineIndex + 1;
      }
      FirstCoverIsLocation(files[file].contents, start, lineIndex);
      location := Panicked;
    }
  }
}
