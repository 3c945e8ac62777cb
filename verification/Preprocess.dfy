/** Line continuations and trimming of rc-file text (crates/bazelrc/src/preprocess.rs). */
module Preprocessor {
  import opened Prelude

  const CR_CONTINUATION := "\\\r"
  const CONTINUATION := "\\"

  /** `s.replace(pattern, "")`: leftmost, non-overlapping occurrences are deleted. */
  function Remove(s: string, pattern: string): string
    requires pattern != ""
    decreases |s|
  {
    if s == "" then ""
    else if pattern <= s then Remove(s[|pattern|..], pattern)
    else [s[0]] + Remove(s[1..], pattern)
  }

  /** The physical lines of `s`; always at least one. */
  function Split(s: string): (lines: seq<string>)
    ensures |lines| > 0
    ensures forall i :: 0 <= i < |lines| ==> '\n' !in lines[i]
  {
    if s == "" then [""]
    else if s[0] == '\n' then [""] + Split(s[1..])
    else var rest := Split(s[1..]); [[s[0]] + rest[0]] + rest[1..]
  }

  /** `lines` written one after the other, separated by newlines. */
  function Join(lines: seq<string>): string
    requires |lines| > 0
  {
    if |lines| == 1 then lines[0] else lines[0] + "\n" + Join(lines[1..])
  }

  predicate IsEdge(c: char) {
    c == ' ' || c == '\t' || c == '\r'
  }

  function Trim(s: string): (t: string)
    ensures t != "" ==> !IsEdge(t[0]) && !IsEdge(t[|t| - 1])
    decreases |s|
  {
    if s == "" then ""
    else if IsEdge(s[0]) then Trim(s[1..])
    else if IsEdge(s[|s| - 1]) then Trim(s[..|s| - 1])
    else s
  }

  function TrimAll(lines: seq<string>): (trimmed: seq<string>)
    ensures |trimmed| == |lines|
    ensures forall i :: 0 <= i < |lines| ==> trimmed[i] == Trim(lines[i])
  {
    if lines == [] then [] else [Trim(lines[0])] + TrimAll(lines[1..])
  }

  function NonEmpty(lines: seq<string>): seq<string> {
    Filter((l: string) => l != "", lines)
  }

  function Process(content: string): seq<string> {
    NonEmpty(TrimAll(Split(Remove(Remove(content, CR_CONTINUATION + "\n"), CONTINUATION + "\n"))))
  }

  // ---- What deleting a continuation means for the physical lines ---------------

  predicate EndsWith(s: string, suffix: string) {
    |suffix| <= |s| && s[|s| - |suffix|..] == suffix
  }

  /** Every line but the last that ends in `mark` loses the mark and takes in the next one. */
  function JoinMarked(lines: seq<string>, mark: string): (joined: seq<string>)
    requires |lines| > 0
    ensures 0 < |joined| <= |lines|
  {
    if |lines| == 1 then lines
    else
      var rest := JoinMarked(lines[1..], mark);
      if EndsWith(lines[0], mark) then [lines[0][..|lines[0]| - |mark|] + rest[0]] + rest[1..]
      else [lines[0]] + rest
  }

  lemma {:induction false} SplitConcatNewline(line: string, rest: string)
    requires '\n' !in line
    ensures Split(line + "\n" + rest) == [line] + Split(rest)
  {
    var s := line + "\n" + rest;
    if line == "" {
      assert s[1..] == rest;
    } else {
      assert s[1..] == line[1..] + "\n" + rest;
      SplitConcatNewline(line[1..], rest);
      assert s[0] == line[0] && s[0] in line;
      var tail := Split(s[1..]);
      assert tail[0] == line[1..] && tail[1..] == Split(rest);
      assert [s[0]] + line[1..] == line;
    }
  }

  lemma {:induction false} SplitPrefix(line: string, rest: string)
    requires '\n' !in line
    ensures Split(line + rest) == [line + Split(rest)[0]] + Split(rest)[1..]
  {
    if line == "" {
      assert line + rest == rest;
      assert line + Split(rest)[0] == Split(rest)[0];
    } else {
      assert (line + rest)[1..] == line[1..] + rest;
      SplitPrefix(line[1..], rest);
      assert [line[0]] + (line[1..] + Split(rest)[0]) == line + Split(rest)[0];
    }
  }

  lemma {:induction false} SplitJoin(s: string)
    ensures Join(Split(s)) == s
  {
    if s != "" {
      SplitJoin(s[1..]);
      var rest := Split(s[1..]);
      if s[0] == '\n' {
        assert Split(s)[1..] == rest;
      } else if |rest| > 1 {
        assert Split(s)[1..] == rest[1..];
        assert [s[0]] + (rest[0] + "\n" + Join(rest[1..])) == ([s[0]] + rest[0]) + "\n" + Join(rest[1..]);
      }
    }
  }

  lemma {:induction false} JoinSplit(lines: seq<string>)
    requires |lines| > 0 && forall i :: 0 <= i < |lines| ==> '\n' !in lines[i]
    ensures Split(Join(lines)) == lines
  {
    if |lines| == 1 {
      SplitPrefix(lines[0], "");
      assert lines[0] + "" == lines[0];
    } else {
      JoinSplit(lines[1..]);
      SplitConcatNewline(lines[0], Join(lines[1..]));
    }
  }

  /** A text without newlines holds no occurrence of a pattern that ends in one. */
  lemma {:induction false} RemoveNothing(line: string, mark: string)
    requires '\n' !in line && '\n' !in mark
    ensures Remove(line, mark + "\n") == line
  {
    if line != "" {
      var pattern := mark + "\n";
      assert pattern[|mark|] == '\n';
      RemoveNothing(line[1..], mark);
    }
  }

  /** Up to the first newline, the pattern occurs only as a mark at the very end. */
  lemma {:induction false} RemoveFirstLine(line: string, mark: string, rest: string)
    requires '\n' !in line && '\n' !in mark
    ensures Remove(line + "\n" + rest, mark + "\n") ==
            if EndsWith(line, mark) then line[..|line| - |mark|] + Remove(rest, mark + "\n")
            else line + "\n" + Remove(rest, mark + "\n")
  {
    hide Remove;
    var s, pattern := line + "\n" + rest, mark + "\n";
    PatternAtStart(line, mark, rest);
    RemoveStep(s, pattern);
    if line == mark {
      assert s[|pattern|..] == rest;
    } else if line == "" {
      assert s[1..] == rest;
    } else {
      assert s[0] == line[0] && s[1..] == line[1..] + "\n" + rest;
      RemoveFirstLine(line[1..], mark, rest);
      EndsWithTail(line, mark);
      FirstCharStays(line, mark, Remove(rest, pattern));
    }
  }

  lemma RemoveStep(s: string, pattern: string)
    requires pattern != "" && s != ""
    ensures Remove(s, pattern) ==
      if pattern <= s then Remove(s[|pattern|..], pattern) else [s[0]] + Remove(s[1..], pattern)
  {
  }

  lemma FirstCharStays(line: string, mark: string, kept: string)
    requires line != ""
    ensures [line[0]] + (line[1..] + "\n" + kept) == line + "\n" + kept
    ensures |mark| < |line| ==> [line[0]] + (line[1..][..|line| - 1 - |mark|] + kept) == line[..|line| - |mark|] + kept
  {
  }

  lemma PatternAtStart(line: string, mark: string, rest: string)
    requires '\n' !in line && '\n' !in mark
    ensures mark + "\n" <= line + "\n" + rest <==> line == mark
  {
    var s, pattern := line + "\n" + rest, mark + "\n";
    assert pattern[|mark|] == '\n' && s[|line|] == '\n';
    if pattern <= s {
      assert s[|mark|] == pattern[|mark|];
      assert |line| == |mark|;
      assert line == s[..|line|] == pattern[..|mark|] == mark;
    }
    if line == mark {
      assert s[..|pattern|] == pattern;
    }
  }

  lemma EndsWithTail(line: string, mark: string)
    requires line != "" && line != mark
    ensures EndsWith(line, mark) <==> EndsWith(line[1..], mark)
  {
    if |mark| < |line| {
      assert line[1..][|line| - 1 - |mark|..] == line[|line| - |mark|..];
    }
  }

  lemma {:induction false} RemoveJoinsMarked(lines: seq<string>, mark: string)
    requires |lines| > 0 && '\n' !in mark && forall i :: 0 <= i < |lines| ==> '\n' !in lines[i]
    ensures Split(Remove(Join(lines), mark + "\n")) == JoinMarked(lines, mark)
  {
    var pattern := mark + "\n";
    if |lines| == 1 {
      RemoveNothing(lines[0], mark);
      JoinSplit(lines);
    } else {
      var tail := lines[1..];
      RemoveJoinsMarked(tail, mark);
      RemoveFirstLine(lines[0], mark, Join(tail));
      var rest := Remove(Join(tail), pattern);
      if EndsWith(lines[0], mark) {
        SplitPrefix(lines[0][..|lines[0]| - |mark|], rest);
      } else {
        SplitConcatNewline(lines[0], rest);
      }
    }
  }

  /** The two replacements are two passes of line joining: first the lines that end in a
      backslash and a carriage return, then those that end in a backslash. */
  lemma ProcessJoinsLines(content: string)
    ensures Process(content) ==
            NonEmpty(TrimAll(JoinMarked(JoinMarked(Split(content), CR_CONTINUATION), CONTINUATION)))
  {
    var first := Remove(content, CR_CONTINUATION + "\n");
    SplitJoin(content);
    RemoveJoinsMarked(Split(content), CR_CONTINUATION);
    SplitJoin(first);
    RemoveJoinsMarked(Split(first), CONTINUATION);
  }

  /** Lines that need no joining or trimming come back as they are. */
  lemma ProcessKeepsPlainLines(lines: seq<string>)
    requires |lines| > 0
    requires forall i :: 0 <= i < |lines| ==>
      '\n' !in lines[i] && lines[i] != "" && !EndsWith(lines[i], CONTINUATION) && !EndsWith(lines[i], CR_CONTINUATION)
      && !IsEdge(lines[i][0]) && !IsEdge(lines[i][|lines[i]| - 1])
    ensures Process(Join(lines)) == lines
  {
    ProcessJoinsLines(Join(lines));
    JoinSplit(lines);
    NothingMarked(lines, CR_CONTINUATION);
    NothingMarked(lines, CONTINUATION);
    AllKept(lines);
  }

  lemma {:induction false} NothingMarked(lines: seq<string>, mark: string)
    requires |lines| > 0 && forall i :: 0 <= i < |lines| - 1 ==> !EndsWith(lines[i], mark)
    ensures JoinMarked(lines, mark) == lines
  {
    if |lines| > 1 {
      NothingMarked(lines[1..], mark);
    }
  }

  // ---- When a pass leaves a continuation behind ---------------------------------

  /** Some line that is not the last still ends in a backslash. */
  ghost predicate ContinuationLeft(lines: seq<string>) {
    exists i :: 0 <= i < |lines| - 1 && EndsWith(lines[i], CONTINUATION)
  }

  /** From line `i` on: bare backslashes up to line `j`, which is empty and not the last. */
  ghost predicate FadesOut(lines: seq<string>, i: nat, j: nat) {
    i <= j < |lines| - 1 && lines[j] == "" && forall k :: i <= k < j ==> lines[k] == CONTINUATION
  }

  /** A line ends in two backslashes and what is joined to it fades out. */
  ghost predicate DoubledAt(lines: seq<string>, i: nat, j: nat) {
    i < j && FadesOut(lines, i + 1, j) && EndsWith(lines[i], "\\\\")
  }

  ghost predicate DoubledThenFaded(lines: seq<string>) {
    exists i: nat, j: nat :: DoubledAt(lines, i, j)
  }

  lemma {:induction false} FirstLineVanishes(lines: seq<string>)
    requires |lines| > 0
    ensures var out := JoinMarked(lines, CONTINUATION);
      (|out| > 1 && out[0] == "") <==> exists j: nat :: FadesOut(lines, 0, j)
  {
    hide FadesOut, JoinMarked, EndsWith;
    if |lines| > 1 {
      FirstLineVanishes(lines[1..]);
      FadesFromFirst(lines);
      FirstIsEmpty(lines);
    } else {
      OneLineStays(lines);
    }
  }

  lemma OneLineStays(lines: seq<string>)
    requires |lines| == 1
    ensures JoinMarked(lines, CONTINUATION) == lines && forall j: nat :: !FadesOut(lines, 0, j)
  {
  }

  lemma FadesFromFirst(lines: seq<string>)
    requires |lines| > 1
    ensures (exists j: nat :: FadesOut(lines, 0, j)) <==>
      lines[0] == "" || (lines[0] == CONTINUATION && exists j: nat :: FadesOut(lines[1..], 0, j))
  {
    var tail := lines[1..];
    if lines[0] == "" {
      assert FadesOut(lines, 0, 0);
    }
    if lines[0] == CONTINUATION {
      if j: nat :| FadesOut(tail, 0, j) {
        forall k | 0 <= k < j + 1 ensures lines[k] == CONTINUATION {
          assert k > 0 ==> lines[k] == tail[k - 1];
        }
        assert FadesOut(lines, 0, j + 1);
      }
    }
    if j: nat :| FadesOut(lines, 0, j) && j > 0 {
      assert FadesOut(tail, 0, j - 1);
    }
  }

  lemma FirstIsEmpty(lines: seq<string>)
    requires |lines| > 1
    ensures var out, rest := JoinMarked(lines, CONTINUATION), JoinMarked(lines[1..], CONTINUATION);
      |out| > 1 && out[0] == "" <==> lines[0] == "" || (lines[0] == CONTINUATION && |rest| > 1 && rest[0] == "")
  {
    if EndsWith(lines[0], CONTINUATION) && |lines[0]| == 1 {
      assert lines[0] == CONTINUATION;
    }
  }

  lemma DoubledAtHeadOrInTail(lines: seq<string>)
    requires |lines| > 1
    ensures DoubledThenFaded(lines) <==>
            DoubledThenFaded(lines[1..]) || (EndsWith(lines[0], "\\\\") && exists j: nat :: FadesOut(lines[1..], 0, j))
  {
    var tail := lines[1..];
    if DoubledThenFaded(lines) {
      var i: nat, j: nat :| DoubledAt(lines, i, j);
      assert FadesOut(tail, i, j - 1) by {
        forall k | i <= k < j - 1 ensures tail[k] == CONTINUATION { assert tail[k] == lines[k + 1]; }
      }
      if i > 0 {
        assert DoubledAt(tail, i - 1, j - 1);
      }
    }
    if DoubledThenFaded(tail) {
      var i: nat, j: nat :| DoubledAt(tail, i, j);
      ShiftFades(lines, i + 1, j);
      assert DoubledAt(lines, i + 1, j + 1);
    }
    if EndsWith(lines[0], "\\\\") && exists j: nat :: FadesOut(tail, 0, j) {
      var j: nat :| FadesOut(tail, 0, j);
      ShiftFades(lines, 0, j);
      assert DoubledAt(lines, 0, j + 1);
    }
  }

  lemma {:induction false} LeftAtHeadOrInTail(lines: seq<string>)
    requires |lines| > 1
    ensures var rest := JoinMarked(lines[1..], CONTINUATION);
      ContinuationLeft(JoinMarked(lines, CONTINUATION)) <==>
      ContinuationLeft(rest) || (EndsWith(lines[0], "\\\\") && |rest| > 1 && rest[0] == "")
  {
    var out, rest := JoinMarked(lines, CONTINUATION), JoinMarked(lines[1..], CONTINUATION);
    if EndsWith(lines[0], CONTINUATION) {
      var stem := lines[0][..|lines[0]| - 1];
      assert out == [stem + rest[0]] + rest[1..] && rest == [rest[0]] + rest[1..];
      LeftOfCons(stem + rest[0], rest[1..]);
      LeftOfCons(rest[0], rest[1..]);
      EndOfConcat(stem, rest[0]);
      DoubledEnd(lines[0]);
    } else {
      LeftOfCons(lines[0], rest);
      if EndsWith(lines[0], "\\\\") {
        DoubledEndsSingle(lines[0]);
      }
    }
  }

  lemma LeftOfCons(head: string, tail: seq<string>)
    ensures ContinuationLeft([head] + tail) <==>
            (tail != [] && EndsWith(head, CONTINUATION)) || ContinuationLeft(tail)
  {
    var all := [head] + tail;
    if i :| 0 <= i < |tail| - 1 && EndsWith(tail[i], CONTINUATION) {
      assert EndsWith(all[i + 1], CONTINUATION);
    }
    if tail != [] && EndsWith(head, CONTINUATION) {
      assert EndsWith(all[0], CONTINUATION);
    }
  }

  lemma EndOfConcat(a: string, b: string)
    ensures EndsWith(a + b, CONTINUATION) <==> EndsWith(if b == "" then a else b, CONTINUATION)
  {
    assert b == "" ==> a + b == a;
    assert b != "" ==> (a + b)[|a + b| - 1..] == b[|b| - 1..];
  }

  lemma DoubledEndsSingle(l: string)
    requires EndsWith(l, "\\\\")
    ensures EndsWith(l, CONTINUATION)
  {
    assert l[|l| - 1..] == l[|l| - 2..][1..];
  }

  lemma DoubledEnd(l: string)
    requires EndsWith(l, CONTINUATION)
    ensures EndsWith(l, "\\\\") <==> EndsWith(l[..|l| - 1], CONTINUATION)
  {
    assert l[|l| - 1] == l[|l| - 1..][0] == '\\';
    if |l| >= 2 {
      assert l[|l| - 2..] == [l[|l| - 2], l[|l| - 1]];
      assert l[..|l| - 1][|l| - 2..] == [l[|l| - 2]];
    }
  }

  /** One pass of joining leaves a continuation behind exactly when some line ends in two
      backslashes and everything joined to it vanishes. */
  lemma {:induction false} ContinuationLeftIff(lines: seq<string>)
    requires |lines| > 0
    ensures ContinuationLeft(JoinMarked(lines, CONTINUATION)) <==> DoubledThenFaded(lines)
  {
    if |lines| > 1 {
      ContinuationLeftIff(lines[1..]);
      FirstLineVanishes(lines[1..]);
      DoubledAtHeadOrInTail(lines);
      LeftAtHeadOrInTail(lines);
    }
  }

  lemma ShiftFades(lines: seq<string>, i: nat, j: nat)
    requires |lines| > 1 && FadesOut(lines[1..], i, j)
    ensures FadesOut(lines, i + 1, j + 1)
  {
    forall k | i + 1 <= k < j + 1 ensures lines[k] == CONTINUATION {
      assert lines[k] == lines[1..][k - 1];
    }
  }

  predicate PlainWord(s: string) {
    && '\n' !in s && s != ""
    && !IsEdge(s[0]) && !IsEdge(s[|s| - 1]) && s[|s| - 1] != '\\'
  }

  /** So processing is not idempotent: around any two plain words, a text whose lines,
      joined and processed again, are processed into fewer lines. */
  lemma ProcessTwiceDiffers(a: string, b: string)
    requires PlainWord(a) && PlainWord(b)
    ensures Process(Join([a + "\\" + "\\", "", b])) == [a + "\\", b]
    ensures Process(Join([a + "\\", b])) == [a + b]
  {
    var one := a + CONTINUATION;
    LastDiffers("", CONTINUATION);
    LastDiffers("", CR_CONTINUATION);
    JoinsToPlain(one, ["", b]);
    assert one + "" == one;
    assert [one + CONTINUATION] + ["", b] == [a + "\\" + "\\", "", b];
    JoinsToPlain(a, [b]);
    assert [a + CONTINUATION] + [b] == [a + "\\", b];
  }

  /** In text: a backslash before a line feed, or before a carriage return and a line feed,
      joins two lines; by itself either line ending separates them. */
  lemma ContinuationsInText(a: string, b: string)
    requires '\n' !in a && '\n' !in b && a != "" && b != ""
    requires a[0] !in " \t\r" && a[|a| - 1] !in " \t\r\\" && b[0] !in " \t\r" && b[|b| - 1] !in " \t\r\\"
    ensures Process(a + "\\\n" + b) == [a + b] && Process(a + "\\\r\n" + b) == [a + b]
    ensures Process(a + "\n" + b) == [a, b] && Process(a + "\r\n" + b) == [a, b]
  {
    hide Process;
    assert PlainWord(a) && PlainWord(b);
    hide PlainWord;
    TwoLines(a, "\\", b);
    TwoLines(a, "\\\r", b);
    TwoLines(a, "", b);
    TwoLines(a, "\r", b);
    assert a + "\\" + "\n" + b == a + "\\\n" + b && a + "\\\r" + "\n" + b == a + "\\\r\n" + b;
    assert a + "" + "\n" + b == a + "\n" + b && a + "\r" + "\n" + b == a + "\r\n" + b;
  }

  lemma TwoLines(a: string, end: string, b: string)
    requires PlainWord(a) && PlainWord(b) && end in {"", "\r", "\\", "\\\r"}
    ensures Process(a + end + "\n" + b) == if end == "" || end == "\r" then [a, b] else [a + b]
  {
    hide Process, JoinMarked, TrimAll, NonEmpty;
    var first := a + end;
    ProcessJoinsLines(first + "\n" + b);
    SplitTwo(a, end, b);
    TwoJoined(a, end, b);
    if end == "" || end == "\r" {
      TwoTrimmed(a, end, b);
    } else {
      assert (a + b)[0] == a[0] && (a + b)[|a + b| - 1] == b[|b| - 1];
      OneKept(a + b);
    }
  }

  lemma SplitTwo(a: string, end: string, b: string)
    requires '\n' !in a && '\n' !in end && '\n' !in b
    ensures Split(a + end + "\n" + b) == [a + end, b]
  {
    SplitConcatNewline(a + end, b);
    JoinSplit([b]);
  }

  lemma TwoJoined(a: string, end: string, b: string)
    requires PlainWord(a) && PlainWord(b) && end in {"", "\r", "\\", "\\\r"}
    ensures JoinMarked(JoinMarked([a + end, b], CR_CONTINUATION), CONTINUATION) ==
      if end == "" || end == "\r" then [a + end, b] else [a + b]
  {
    hide JoinMarked, EndsWith, PlainWord;
    TwoLast(a, end);
    JoinTwo(a + end, b, CR_CONTINUATION);
    JoinTwo(a + end, b, CONTINUATION);
    assert (a + end)[..|a + end| - |end|] == a;
    if end == "\\\r" {
      JoinNone(a + b);
    }
  }

  lemma {:induction false} JoinTwo(first: string, second: string, mark: string)
    ensures JoinMarked([first, second], mark) ==
      if EndsWith(first, mark) then [first[..|first| - |mark|] + second] else [first, second]
  {
    assert [first, second][1..] == [second];
  }

  lemma JoinNone(line: string)
    ensures JoinMarked([line], CONTINUATION) == [line]
  {
  }

  lemma TwoTrimmed(a: string, end: string, b: string)
    requires PlainWord(a) && PlainWord(b) && (end == "" || end == "\r")
    ensures NonEmpty(TrimAll([a + end, b])) == [a, b]
  {
    hide NonEmpty, TrimAll, Trim;
    TrimPlain(a, end);
    TrimPlain(b, "");
    assert b + "" == b;
    TwoKept(a + end, b, a);
  }

  lemma TwoLast(a: string, end: string)
    requires PlainWord(a) && end in {"", "\r", "\\", "\\\r"}
    ensures EndsWith(a + end, CR_CONTINUATION) <==> end == "\\\r"
    ensures EndsWith(a + end, CONTINUATION) <==> end == "\\"
  {
    var s, n := a + end, |a + end|;
    assert |s| >= 1 ==> s[n - 1..] == [s[n - 1]];
    assert n >= 2 ==> s[n - 2..] == [s[n - 2], s[n - 1]];
  }

  lemma TrimPlain(a: string, end: string)
    requires PlainWord(a) && (end == "" || end == "\r")
    ensures Trim(a + end) == a
  {
    if end == "\r" {
      assert (a + end)[..|a + end| - 1] == a;
    } else {
      assert a + end == a;
    }
  }

  lemma TwoKept(first: string, second: string, trimmed: string)
    requires Trim(first) == trimmed && Trim(second) == second && trimmed != "" && second != ""
    ensures NonEmpty(TrimAll([first, second])) == [trimmed, second]
  {
    assert TrimAll([first, second]) == [trimmed, second];
    FilterAll((l: string) => l != "", [trimmed, second]);
  }

  lemma OneKept(line: string)
    requires Trim(line) == line && line != ""
    ensures NonEmpty(TrimAll([line])) == [line]
  {
    assert TrimAll([line]) == [line];
    FilterAll((l: string) => l != "", [line]);
  }

  lemma JoinsToPlain(stem: string, tail: seq<string>)
    requires |tail| > 0 && '\n' !in stem && forall i :: 0 <= i < |tail| ==> '\n' !in tail[i]
    requires forall i :: 0 <= i < |tail| - 1 ==> !EndsWith(tail[i], CONTINUATION) && !EndsWith(tail[i], CR_CONTINUATION)
    requires stem + tail[0] != "" && Trim(stem + tail[0]) == stem + tail[0]
    requires forall i :: 1 <= i < |tail| ==> tail[i] != "" && Trim(tail[i]) == tail[i]
    ensures Process(Join([stem + CONTINUATION] + tail)) == [stem + tail[0]] + tail[1..]
  {
    hide Process, Trim, TrimAll, Split, Remove;
    var lines := [stem + CONTINUATION] + tail;
    LastDiffers(lines[0], CR_CONTINUATION);
    NothingMarked(lines, CR_CONTINUATION);
    ProcessOfLines(lines);
    JoinPair(stem, tail);
    AllKept([stem + tail[0]] + tail[1..]);
  }

  lemma LastDiffers(s: string, mark: string)
    requires mark != "" && (s == "" || s[|s| - 1] != mark[|mark| - 1])
    ensures !EndsWith(s, mark)
  {
    if |mark| <= |s| {
      assert s[|s| - |mark|..][|mark| - 1] == s[|s| - 1];
    }
  }

  /** A marked first line in front of lines that need no joining. */
  lemma JoinPair(stem: string, tail: seq<string>)
    requires |tail| > 0 && forall i :: 0 <= i < |tail| - 1 ==> !EndsWith(tail[i], CONTINUATION)
    ensures JoinMarked([stem + CONTINUATION] + tail, CONTINUATION) == [stem + tail[0]] + tail[1..]
  {
    var lines := [stem + CONTINUATION] + tail;
    assert lines[1..] == tail;
    NothingMarked(tail, CONTINUATION);
    assert lines[0][|stem|..] == CONTINUATION && lines[0][..|stem|] == stem;
  }

  lemma AllKept(lines: seq<string>)
    requires forall i :: 0 <= i < |lines| ==> lines[i] != "" && Trim(lines[i]) == lines[i]
    ensures NonEmpty(TrimAll(lines)) == lines
  {
    assert TrimAll(lines) == lines;
    FilterAll((l: string) => l != "", lines);
  }

  lemma ProcessOfLines(lines: seq<string>)
    requires |lines| > 0 && forall i :: 0 <= i < |lines| ==> '\n' !in lines[i]
    ensures Process(Join(lines)) ==
            NonEmpty(TrimAll(JoinMarked(JoinMarked(lines, CR_CONTINUATION), CONTINUATION)))
  {
    ProcessJoinsLines(Join(lines));
    JoinSplit(lines);
  }

  // ---- When processing is stable ----------------------------------------------------

  /** The physical lines once continuations are joined, before trimming. */
  function Joined(content: string): seq<string> {
    JoinMarked(JoinMarked(Split(content), CR_CONTINUATION), CONTINUATION)
  }

  /** Lines as a text again; no lines are the empty text. */
  function Written(lines: seq<string>): string {
    if lines == [] then "" else Join(lines)
  }

  /** Some line ends in a backslash once trimmed, and a line that is not blank comes after. */
  ghost predicate LeavesContinuation(joined: seq<string>) {
    exists i, j :: 0 <= i < j < |joined| && EndsWith(Trim(joined[i]), CONTINUATION) && Trim(joined[j]) != ""
  }

  lemma {:induction false} MarkedShrinks(lines: seq<string>, mark: string, i: nat)
    requires i < |lines| - 1 && EndsWith(lines[i], mark)
    ensures |JoinMarked(lines, mark)| < |lines|
  {
    if i > 0 {
      MarkedShrinks(lines[1..], mark, i - 1);
    }
  }

  predicate Tidy(lines: seq<string>) {
    forall i :: 0 <= i < |lines| ==> '\n' !in lines[i] && lines[i] != "" && Trim(lines[i]) == lines[i]
  }

  /** Trimmed lines come back exactly when none but the last ends in a backslash. */
  lemma TidyLinesComeBackIff(lines: seq<string>)
    requires Tidy(lines)
    ensures Process(Written(lines)) == lines <==> !ContinuationLeft(lines)
  {
    hide Process, Trim, Split, Remove, JoinMarked;
    if lines == [] {
      NothingProcessed();
    } else {
      ProcessOfLines(lines);
      NoCarriageReturns(lines);
      NothingMarked(lines, CR_CONTINUATION);
      if ContinuationLeft(lines) {
        var i: nat :| i < |lines| - 1 && EndsWith(lines[i], CONTINUATION);
        MarkedShrinks(lines, CONTINUATION, i);
        FilterLength((l: string) => l != "", TrimAll(JoinMarked(lines, CONTINUATION)));
      } else {
        NothingMarked(lines, CONTINUATION);
        AllKept(lines);
      }
    }
  }

  lemma NothingProcessed()
    ensures Process("") == []
  {
    assert Split("") == [""] && TrimAll([""])[0] == "" && NonEmpty([""]) == [];
  }

  lemma NoCarriageReturns(lines: seq<string>)
    requires Tidy(lines)
    ensures forall i :: 0 <= i < |lines| ==> !EndsWith(lines[i], CR_CONTINUATION)
  {
    forall i | 0 <= i < |lines| ensures !EndsWith(lines[i], CR_CONTINUATION) {
      assert !IsEdge(Trim(lines[i])[|lines[i]| - 1]);
      LastDiffers(lines[i], CR_CONTINUATION);
    }
  }

  /** Dropping empty lines neither makes nor hides a continuation. */
  lemma {:induction false} KeptLinesContinueIff(lines: seq<string>)
    ensures ContinuationLeft(NonEmpty(lines)) <==>
      exists i, j :: 0 <= i < j < |lines| && EndsWith(lines[i], CONTINUATION) && lines[j] != ""
    ensures NonEmpty(lines) != [] <==> exists j :: 0 <= j < |lines| && lines[j] != ""
  {
    if lines != [] {
      var head, rest := lines[0], lines[1..];
      var kept := NonEmpty(rest);
      KeptLinesContinueIff(rest);
      assert NonEmpty(lines) == if head != "" then [head] + kept else kept;
      if head != "" {
        LeftOfCons(head, kept);
      }
      ShiftedPairs(lines);
      assert (exists j :: 0 <= j < |lines| && lines[j] != "") <==>
        head != "" || exists j :: 0 <= j < |rest| && rest[j] != ""
      by {
        if j :| 0 <= j < |rest| && rest[j] != "" {
          assert lines[j + 1] != "";
        }
        if j :| 0 <= j < |lines| && lines[j] != "" && j > 0 {
          assert rest[j - 1] != "";
        }
      }
    }
  }

  lemma ShiftedPairs(lines: seq<string>)
    requires lines != []
    ensures var rest := lines[1..];
      (exists i, j :: 0 <= i < j < |lines| && EndsWith(lines[i], CONTINUATION) && lines[j] != "") <==>
      (EndsWith(lines[0], CONTINUATION) && exists j :: 0 <= j < |rest| && rest[j] != "")
      || exists i, j :: 0 <= i < j < |rest| && EndsWith(rest[i], CONTINUATION) && rest[j] != ""
  {
    hide EndsWith;
    var rest := lines[1..];
    if i, j :| 0 <= i < j < |lines| && EndsWith(lines[i], CONTINUATION) && lines[j] != "" {
      assert rest[j - 1] != "";
      if i > 0 {
        assert EndsWith(rest[i - 1], CONTINUATION);
      }
    }
    if EndsWith(lines[0], CONTINUATION) {
      if j :| 0 <= j < |rest| && rest[j] != "" {
        assert lines[j + 1] != "";
      }
    }
    if i, j :| 0 <= i < j < |rest| && EndsWith(rest[i], CONTINUATION) && rest[j] != "" {
      assert EndsWith(lines[i + 1], CONTINUATION) && lines[j + 1] != "";
    }
  }

  lemma ProcessIsTidy(content: string)
    ensures Process(content) == NonEmpty(TrimAll(Joined(content))) && Tidy(Process(content))
  {
    ProcessJoinsLines(content);
    var lines := Split(Remove(Remove(content, CR_CONTINUATION + "\n"), CONTINUATION + "\n"));
    forall i | 0 <= i < |Process(content)|
      ensures '\n' !in Process(content)[i] && Process(content)[i] != ""
        && Trim(Process(content)[i]) == Process(content)[i]
    {
      var out := Process(content)[i];
      assert out in NonEmpty(TrimAll(lines)) && out in TrimAll(lines);
      var k :| 0 <= k < |lines| && out == Trim(lines[k]);
      var before, after := TrimRemovesEdges(lines[k]);
      TrimTwice(lines[k]);
    }
  }

  /** Trimming deletes edge characters from both ends and nothing else. */
  lemma {:induction false} TrimRemovesEdges(s: string) returns (before: string, after: string)
    ensures s == before + Trim(s) + after
    ensures forall c :: c in before + after ==> c in " \t\r"
    ensures Trim(s) != "" ==> Trim(s)[0] !in " \t\r" && Trim(s)[|Trim(s)| - 1] !in " \t\r"
    decreases |s|
  {
    if s == "" {
      before, after := "", "";
    } else if IsEdge(s[0]) {
      before, after := TrimRemovesEdges(s[1..]);
      before := [s[0]] + before;
    } else if IsEdge(s[|s| - 1]) {
      before, after := TrimRemovesEdges(s[..|s| - 1]);
      after := after + [s[|s| - 1]];
    } else {
      before, after := "", "";
    }
  }

  lemma TrimTwice(s: string)
    ensures Trim(Trim(s)) == Trim(s)
  {
  }

  /** Processing the processed lines of a text returns them if and only if no line that
      ends in a backslash once trimmed has a line that is not blank after it. */
  lemma ProcessIsStableIff(content: string)
    ensures Process(Written(Process(content))) == Process(content) <==> !LeavesContinuation(Joined(content))
  {
    hide Process, Joined, Trim, EndsWith;
    var joined, trimmed := Joined(content), TrimAll(Joined(content));
    ProcessIsTidy(content);
    TidyLinesComeBackIff(Process(content));
    KeptLinesContinueIff(trimmed);
    assert LeavesContinuation(joined) <==>
      exists i, j :: 0 <= i < j < |trimmed| && EndsWith(trimmed[i], CONTINUATION) && trimmed[j] != "" by {
      if LeavesContinuation(joined) {
        var i, j :| 0 <= i < j < |joined| && EndsWith(Trim(joined[i]), CONTINUATION) && Trim(joined[j]) != "";
        assert EndsWith(trimmed[i], CONTINUATION) && trimmed[j] != "";
      }
      if i, j :| 0 <= i < j < |trimmed| && EndsWith(trimmed[i], CONTINUATION) && trimmed[j] != "" {
        assert EndsWith(Trim(joined[i]), CONTINUATION) && Trim(joined[j]) != "";
      }
    }
  }

  /** Trimming alone can uncover a continuation: a blank behind the backslash hides it
      from the first processing only. */
  lemma BlankHidesContinuation(a: string, b: string)
    requires PlainWord(a) && PlainWord(b)
    ensures Process(Join([a + "\\" + " ", b])) == [a + "\\", b]
    ensures Process(Join([a + "\\", b])) == [a + b]
  {
    hide Process, Split, Remove;
    var first, bare := a + "\\" + " ", a + CONTINUATION;
    LastDiffers(first, CONTINUATION);
    LastDiffers(first, CR_CONTINUATION);
    ProcessOfLines([first, b]);
    NothingMarked([first, b], CR_CONTINUATION);
    NothingMarked([first, b], CONTINUATION);
    assert first[..|first| - 1] == bare && Trim(first) == Trim(bare) == bare;
    assert TrimAll([first, b]) == [bare, b] == TrimAll([bare, b]);
    AllKept([bare, b]);
    JoinsToPlain(a, [b]);
    assert [a + CONTINUATION] + [b] == [a + "\\", b];
  }
}
