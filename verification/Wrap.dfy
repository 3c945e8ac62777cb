/** Wrapping of flags in the disclosure (`announce` in crates/bazelrc/src/lib.rs). */
module Wrapping {
  import opened Prelude
  import opened Preprocessor

  /** Length in UTF-8, which is what the program counts. */
  function Bytes(s: string): nat {
    if s == "" then 0
    else
      var c := s[|s| - 1] as int;
      Bytes(s[..|s| - 1]) + if c < 0x80 then 1 else if c < 0x800 then 2 else if c < 0x1_0000 then 3 else 4
  }

  /** Columns a line of flags takes, separated by single spaces. */
  function Width(line: seq<string>): nat {
    if line == [] then 0
    else if |line| == 1 then Bytes(line[0])
    else Width(line[..|line| - 1]) + 1 + Bytes(line[|line| - 1])
  }

  /** The column after line `j`; only the first line starts at `startCol`. */
  function EndColumn(j: nat, line: seq<string>, startCol: nat, indent: nat): nat {
    (if j == 0 then startCol else indent) + Width(line)
  }

  function Column(lines: seq<seq<string>>, startCol: nat, indent: nat): nat {
    if lines == [] then startCol else EndColumn(|lines| - 1, lines[|lines| - 1], startCol, indent)
  }

  function Lines(flags: seq<string>, startCol: nat, indent: nat, maxWidth: nat): seq<seq<string>> {
    if flags == [] then []
    else
      var n := |flags| - 1;
      var before := Lines(flags[..n], startCol, indent, maxWidth);
      if before != [] && Column(before, startCol, indent) + 1 + Bytes(flags[n]) <= maxWidth
      then before[..|before| - 1] + [before[|before| - 1] + [flags[n]]]
      else before + [[flags[n]]]
  }

  function Spaces(n: nat): (s: string)
    ensures |s| == n && forall i :: 0 <= i < n ==> s[i] == ' '
  {
    if n == 0 then "" else Spaces(n - 1) + " "
  }

  function Spaced(line: seq<string>): string {
    if line == [] then ""
    else if |line| == 1 then line[0]
    else Spaced(line[..|line| - 1]) + " " + line[|line| - 1]
  }

  function Printed(lines: seq<seq<string>>, indent: nat): string {
    if lines == [] then ""
    else if |lines| == 1 then Spaced(lines[0])
    else Printed(lines[..|lines| - 1], indent) + "\n" + Spaces(indent) + Spaced(lines[|lines| - 1])
  }

  method WrapFlags(flags: seq<string>, startCol: nat, indent: nat, maxWidth: nat) returns (result: string)
    ensures result == Printed(Lines(flags, startCol, indent, maxWidth), indent)
  {
    hide Column, Printed, Lines;
    result := "";
    var col, first, i := startCol, true, 0;
    NoLines(startCol, indent, maxWidth);
    while i < |flags|
      invariant 0 <= i <= |flags| && first == (i == 0)
      invariant result == Printed(Lines(flags[..i], startCol, indent, maxWidth), indent)
      invariant col == Column(Lines(flags[..i], startCol, indent, maxWidth), startCol, indent)
    {
      var flag := flags[i];
      assert flags[..i + 1] == flags[..i] + [flag];
      NextFlag(flags[..i], flag, startCol, indent, maxWidth);
      if first {
        result := result + flag;
        col := col + Bytes(flag);
        first := false;
      } else if col + 1 + Bytes(flag) <= maxWidth {
        result := result + " " + flag;
        col := col + 1 + Bytes(flag);
      } else {
        result := result + "\n" + Spaces(indent) + flag;
        col := indent + Bytes(flag);
      }
      i := i + 1;
    }
    assert flags[..i] == flags;
  }

  lemma {:induction false} BytesConcat(a: string, b: string)
    ensures Bytes(a + b) == Bytes(a) + Bytes(b)
  {
    if b == "" {
      assert a + b == a;
    } else {
      assert (a + b)[..|a + b| - 1] == a + b[..|b| - 1];
      BytesConcat(a, b[..|b| - 1]);
    }
  }

  /** A character takes as many bytes as its code needs: 7 bits in one, 11 in two, 16 in
      three, all others in four. */
  lemma BytesOfOne(c: char)
    ensures var code := c as int;
      Bytes([c]) == if code < 128 then 1 else if code < 2048 then 2 else if code < 65536 then 3 else 4
  {
    assert [c][..0] == "";
  }

  /** The columns counted are the bytes of the line as printed. */
  lemma {:induction false} WidthIsPrinted(line: seq<string>)
    ensures Bytes(Spaced(line)) == Width(line)
  {
    if |line| > 1 {
      var front, last := line[..|line| - 1], line[|line| - 1];
      WidthIsPrinted(front);
      BytesConcat(Spaced(front) + " ", last);
      BytesConcat(Spaced(front), " ");
      BytesOfOne(' ');
    }
  }

  /** The printed lines, all but the first behind the indent. */
  function Rows(lines: seq<seq<string>>, indent: nat): (rows: seq<string>)
    ensures |rows| == |lines|
    ensures forall j :: 0 <= j < |lines| ==> rows[j] == (if j == 0 then "" else Spaces(indent)) + Spaced(lines[j])
  {
    if lines == [] then []
    else
      var n := |lines| - 1;
      Rows(lines[..n], indent) + [(if n == 0 then "" else Spaces(indent)) + Spaced(lines[n])]
  }

  lemma {:induction false} PrintedInLines(lines: seq<seq<string>>, indent: nat)
    requires lines != []
    ensures Printed(lines, indent) == Join(Rows(lines, indent))
  {
    hide Spaced, Spaces;
    var n := |lines| - 1;
    if n == 0 {
      assert "" + Spaced(lines[0]) == Spaced(lines[0]);
    } else {
      PrintedInLines(lines[..n], indent);
      JoinSnoc(Rows(lines[..n], indent), Spaces(indent) + Spaced(lines[n]));
    }
  }

  lemma {:induction false} JoinSnoc(lines: seq<string>, line: string)
    requires lines != []
    ensures Join(lines + [line]) == Join(lines) + "\n" + line
  {
    if |lines| == 1 {
      assert (lines + [line])[1..] == [line];
    } else {
      assert (lines + [line])[1..] == lines[1..] + [line];
      JoinSnoc(lines[1..], line);
    }
  }

  lemma NoLines(startCol: nat, indent: nat, maxWidth: nat)
    ensures Lines([], startCol, indent, maxWidth) == [] && Column([], startCol, indent) == startCol
    ensures Printed([], indent) == ""
  {
  }

  lemma {:induction false} SomeLines(flags: seq<string>, startCol: nat, indent: nat, maxWidth: nat)
    ensures var lines := Lines(flags, startCol, indent, maxWidth);
      (lines == [] <==> flags == []) && forall j :: 0 <= j < |lines| ==> lines[j] != []
  {
    if flags != [] {
      SomeLines(flags[..|flags| - 1], startCol, indent, maxWidth);
    }
  }

  lemma LongerLine(line: seq<string>, flag: string)
    requires line != []
    ensures Width(line + [flag]) == Width(line) + 1 + Bytes(flag) && Spaced(line + [flag]) == Spaced(line) + " " + flag
  {
    assert (line + [flag])[..|line|] == line;
  }

  lemma MoreLines(before: seq<seq<string>>, line: seq<string>, startCol: nat, indent: nat)
    ensures Printed(before + [line], indent) ==
      if before == [] then Spaced(line) else Printed(before, indent) + "\n" + Spaces(indent) + Spaced(line)
    ensures Column(before + [line], startCol, indent) == (if before == [] then startCol else indent) + Width(line)
  {
    assert (before + [line])[..|before|] == before;
  }

  lemma NextLines(flags: seq<string>, flag: string, startCol: nat, indent: nat, maxWidth: nat)
    ensures var before := Lines(flags, startCol, indent, maxWidth);
      Lines(flags + [flag], startCol, indent, maxWidth) ==
      if before != [] && Column(before, startCol, indent) + 1 + Bytes(flag) <= maxWidth
      then before[..|before| - 1] + [before[|before| - 1] + [flag]]
      else before + [[flag]]
  {
    assert (flags + [flag])[..|flags|] == flags;
  }

  lemma NextFlag(flags: seq<string>, flag: string, startCol: nat, indent: nat, maxWidth: nat)
    ensures var before, after :=
      Lines(flags, startCol, indent, maxWidth), Lines(flags + [flag], startCol, indent, maxWidth);
      var col, text := Column(before, startCol, indent), Printed(before, indent);
      && (flags == [] ==> Printed(after, indent) == text + flag && Column(after, startCol, indent) == col + Bytes(flag))
      && (flags != [] && col + 1 + Bytes(flag) <= maxWidth ==>
        Printed(after, indent) == text + " " + flag && Column(after, startCol, indent) == col + 1 + Bytes(flag))
      && (flags != [] && col + 1 + Bytes(flag) > maxWidth ==>
        Printed(after, indent) == text + "\n" + Spaces(indent) + flag
          && Column(after, startCol, indent) == indent + Bytes(flag))
  {
    hide Lines, Column, Printed;
    var before := Lines(flags, startCol, indent, maxWidth);
    SomeLines(flags, startCol, indent, maxWidth);
    NextLines(flags, flag, startCol, indent, maxWidth);
    MoreLines(before, [flag], startCol, indent);
    if flags == [] {
      NoLines(startCol, indent, maxWidth);
    } else {
      var front, last := before[..|before| - 1], before[|before| - 1];
      assert before == front + [last];
      MoreLines(front, last, startCol, indent);
      MoreLines(front, last + [flag], startCol, indent);
      LongerLine(last, flag);
    }
  }

  /** Lines exceed the width only if they hold one flag, and are as long as they can be. */
  ghost predicate WellWrapped(lines: seq<seq<string>>, startCol: nat, indent: nat, maxWidth: nat) {
    && (forall j :: 0 <= j < |lines| ==> lines[j] != [])
    && (forall j :: 0 <= j < |lines| && |lines[j]| > 1 ==> EndColumn(j, lines[j], startCol, indent) <= maxWidth)
    && forall j :: 0 <= j < |lines| - 1 ==>
      EndColumn(j, lines[j], startCol, indent) + 1 + Bytes(lines[j + 1][0]) > maxWidth
  }

  lemma NewLineIsWellWrapped(lines: seq<seq<string>>, flag: string, startCol: nat, indent: nat, maxWidth: nat)
    requires WellWrapped(lines, startCol, indent, maxWidth)
    requires lines == [] || Column(lines, startCol, indent) + 1 + Bytes(flag) > maxWidth
    ensures WellWrapped(lines + [[flag]], startCol, indent, maxWidth)
  {
    hide EndColumn;
  }

  lemma LongerLineIsWellWrapped(lines: seq<seq<string>>, flag: string, startCol: nat, indent: nat, maxWidth: nat)
    requires WellWrapped(lines, startCol, indent, maxWidth)
    requires lines != [] && Column(lines, startCol, indent) + 1 + Bytes(flag) <= maxWidth
    ensures WellWrapped(lines[..|lines| - 1] + [lines[|lines| - 1] + [flag]], startCol, indent, maxWidth)
  {
    hide EndColumn;
    var n := |lines| - 1;
    var longer := lines[..n] + [lines[n] + [flag]];
    LongerEnd(n, lines[n], flag, startCol, indent);
    assert forall j :: 0 <= j < n ==> longer[j] == lines[j];
    assert longer[n][0] == lines[n][0];
  }

  lemma LongerEnd(j: nat, line: seq<string>, flag: string, startCol: nat, indent: nat)
    requires line != []
    ensures EndColumn(j, line + [flag], startCol, indent) == EndColumn(j, line, startCol, indent) + 1 + Bytes(flag)
  {
    LongerLine(line, flag);
  }

  /** Wrapping keeps the flags in order, exceeds the width only on a line of one flag, and
      starts a new line only where the next flag would not have fitted. */
  lemma {:induction false} WrappingKeepsFlags(flags: seq<string>, startCol: nat, indent: nat, maxWidth: nat)
    ensures Flatten(Lines(flags, startCol, indent, maxWidth)) == flags
    ensures WellWrapped(Lines(flags, startCol, indent, maxWidth), startCol, indent, maxWidth)
  {
    hide Lines, Column, WellWrapped, Flatten;
    if flags == [] {
      NoLines(startCol, indent, maxWidth);
      NothingWrapped(startCol, indent, maxWidth);
    } else {
      var front, flag := flags[..|flags| - 1], flags[|flags| - 1];
      assert flags == front + [flag];
      var lines := Lines(front, startCol, indent, maxWidth);
      WrappingKeepsFlags(front, startCol, indent, maxWidth);
      NextLines(front, flag, startCol, indent, maxWidth);
      if lines != [] && Column(lines, startCol, indent) + 1 + Bytes(flag) <= maxWidth {
        LongerLineIsWellWrapped(lines, flag, startCol, indent, maxWidth);
        var most, last := lines[..|lines| - 1], lines[|lines| - 1];
        assert lines == most + [last];
        FlattenSnoc(most, last);
        FlattenSnoc(most, last + [flag]);
      } else {
        NewLineIsWellWrapped(lines, flag, startCol, indent, maxWidth);
        FlattenSnoc(lines, [flag]);
      }
    }
  }

  lemma NothingWrapped(startCol: nat, indent: nat, maxWidth: nat)
    ensures WellWrapped([], startCol, indent, maxWidth) && Flatten<string>([]) == []
  {
  }
}
