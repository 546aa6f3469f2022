/** How `execute_python_code` turns the extracted code into the program it
    hands to `exec`: split it into lines, drop every line whose trimmed text
    starts with `#`, join the rest with `\n`, and put `result = ` in front.
 */
module Program {
  import opened Strings

  const CommentMarker := "#"
  const ResultAssignment := "result = "

  /** A full-line comment: after trimming, the line starts with `#`. */
  predicate IsComment(line: string) {
    StartsWith(Strip(line), CommentMarker)
  }

  /** The generator inside the join: the lines that are not comments, in
      their original order. A line is kept exactly when it is not a comment,
      no kept line is a comment, and the kept lines are a subsequence of the
      input lines. */
  function KeepCode(lines: seq<string>): (kept: seq<string>)
    ensures |kept| <= |lines|
    ensures forall line :: line in kept <==> line in lines && !IsComment(line)
    ensures IsSubsequence(kept, lines)
  {
    if lines == [] then []
    else
      var rest := KeepCode(lines[1..]);
      assert forall line :: line in lines <==> line == lines[0] || line in lines[1..];
      if IsComment(lines[0]) then rest else [lines[0]] + rest
  }

  /** A line that starts with a character other than whitespace or `#` is
      not a comment. */
  lemma CodeLineIsNotComment(line: string)
    requires line != [] && !IsSpace(line[0]) && line[0] != '#'
    ensures !IsComment(line)
  {
    StripKeepsFirst(line);
    var t := Strip(line);
    assert t[..1][0] == t[0];
  }

  /** Filtering a concatenation filters each part. */
  lemma {:induction false} KeepCodeAppend(a: seq<string>, b: seq<string>)
    ensures KeepCode(a + b) == KeepCode(a) + KeepCode(b)
    decreases |a|
  {
    if a == [] {
      assert a + b == b;
    } else {
      assert (a + b)[1..] == a[1..] + b;
      KeepCodeAppend(a[1..], b);
    }
  }

  /** A second filter finds nothing more to drop. */
  lemma {:induction false} KeepCodeIdempotent(lines: seq<string>)
    ensures KeepCode(KeepCode(lines)) == KeepCode(lines)
    decreases |lines|
  {
    if lines != [] {
      KeepCodeIdempotent(lines[1..]);
      if !IsComment(lines[0]) {
        assert KeepCode(lines) == [lines[0]] + KeepCode(lines[1..]);
        KeepCodeAppend([lines[0]], KeepCode(lines[1..]));
      }
    }
  }

  /** The filter changes nothing exactly when there is no comment line. */
  lemma {:induction false} KeepCodeUnchanged(lines: seq<string>)
    ensures KeepCode(lines) == lines <==> forall i :: 0 <= i < |lines| ==> !IsComment(lines[i])
    decreases |lines|
  {
    if lines != [] {
      KeepCodeUnchanged(lines[1..]);
      if IsComment(lines[0]) {
        assert |KeepCode(lines)| < |lines|;
      } else {
        assert KeepCode(lines) == [lines[0]] + KeepCode(lines[1..]);
        assert forall i :: 1 <= i < |lines| ==> lines[i] == lines[1..][i - 1];
      }
    }
  }

  /** `"\n".join(line for line in code.splitlines() if not line.strip().startswith("#"))` */
  function FilterComments(code: string): string
  {
    Join("\n", KeepCode(SplitLines(code)))
  }

  /** Read back line by line, the filtered code is the kept lines, except
      that a final empty kept line does not survive the join. */
  lemma FilteredLines(code: string)
    ensures SplitLines(FilterComments(code)) == DropTrailingEmpty(KeepCode(SplitLines(code)))
  {
    var lines := SplitLines(code);
    var kept := KeepCode(lines);
    SplitLinesAreLines(code);
    forall i | 0 <= i < |kept| ensures IsLine(kept[i]) {
      assert kept[i] in lines;
    }
    SplitLinesOfJoin(kept);
  }

  /** No line of the filtered code is a comment, and every non-empty line
      of the input that is not a comment is still there. */
  lemma FilteredCodeHasNoComments(code: string)
    ensures forall line :: line in SplitLines(FilterComments(code)) ==> !IsComment(line)
    ensures forall line :: line in SplitLines(code) && !IsComment(line) && line != "" ==>
      line in SplitLines(FilterComments(code))
  {
    FilteredLines(code);
    DropTrailingEmptyMembers(KeepCode(SplitLines(code)));
  }

  /** `"x"` and `""` are code lines, not comments. */
  lemma ShortLinesAreCode()
    ensures !IsComment("x") && !IsComment("")
  {
    CodeLineIsNotComment("x");
  }

  /** A lone line break is one empty line. */
  lemma LinesOfNewline()
    ensures SplitLines("\n") == [""]
  {
    assert "\n" == "" + "\n" + "";
    SplitLinesAfterNewline("", "");
  }

  /** `"x\n"` is the one line `"x"`. */
  lemma LinesOfLine()
    ensures SplitLines("x\n") == ["x"]
  {
    assert "x\n" == "x" + "\n" + "";
    SplitLinesAfterNewline("x", "");
  }

  /** `"x\n\n"` is the line `"x"` and an empty line. */
  lemma LinesOfLineAndBlank()
    ensures SplitLines("x\n\n") == ["x", ""]
  {
    assert "x\n\n" == "x" + "\n" + "\n";
    SplitLinesAfterNewline("x", "\n");
    LinesOfNewline();
  }

  /** Filtering twice is not filtering once at the level of strings: the
      first pass can leave a final line break that the second pass drops. */
  lemma FilterNotIdempotent()
    ensures FilterComments("x\n\n") == "x\n"
    ensures FilterComments("x\n") == "x"
  {
    LinesOfLineAndBlank();
    LinesOfLine();
    ShortLinesAreCode();
    assert KeepCode(["x", ""]) == ["x", ""] by {
      assert ["x", ""][1..] == [""];
    }
    assert Join("\n", ["x", ""]) == "x\n" by {
      assert ["x", ""][1..] == [""];
    }
  }

  /** The program handed to `exec`: `"result = " + clean_code`. */
  function AssembleProgram(code: string): (program: string)
    ensures StartsWith(program, ResultAssignment)
  {
    ResultAssignment + FilterComments(code)
  }

  /** Line by line, the program is the filtered code with `result = ` glued
      to the front of its first line, or standing alone when nothing is left.
      How `exec` parses the program (a bracket or a trailing backslash can
      carry the expression over several lines) is not modelled. */
  lemma ProgramLines(code: string)
    ensures var body := SplitLines(FilterComments(code));
      SplitLines(AssembleProgram(code)) ==
        if body == [] then [ResultAssignment] else [ResultAssignment + body[0]] + body[1..]
  {
    PrependToFirstLine(ResultAssignment, FilterComments(code));
  }

  /** No line of the program `exec` runs is a full-line comment. */
  lemma ProgramHasNoComments(code: string)
    ensures forall line :: line in SplitLines(AssembleProgram(code)) ==> !IsComment(line)
  {
    var body := SplitLines(FilterComments(code));
    ProgramLines(code);
    FilteredCodeHasNoComments(code);
    var first := if body == [] then ResultAssignment else ResultAssignment + body[0];
    assert first[0] == ResultAssignment[0] == 'r';
    CodeLineIsNotComment(first);
    forall line | line in SplitLines(AssembleProgram(code)) ensures !IsComment(line) {
      if line != first {
        assert line in body;
      }
    }
  }
}
