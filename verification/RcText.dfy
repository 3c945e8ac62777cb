/** Parsing from the words in a file: what each kind of row adds to the inlined text, which
    file it leads to, and what stops it. */
module RcText {
  import opened Prelude
  import opened Rc
  import opened Parser
  import opened RoundTrip
  import Tokenizer

  /** The file system with `file` holding these rows. */
  function Holding(fs: FileSystem, file: string, rows: seq<seq<string>>): FileSystem
    requires ArePrintable(rows)
  {
    fs.(contents := fs.contents[file := PrintFile(rows)])
  }

  /** What a file inlines when it holds these rows. */
  function TextOf(fs: FileSystem, root: string, path: string, stack: seq<string>, rows: seq<seq<string>>): Inlined
    requires path in fs.canonical && ArePrintable(rows)
  {
    Inline(Holding(fs, fs.canonical[path], rows), root, path, stack)
  }

  // ---- Files on the stack are not read ---------------------------------------------------------

  ghost predicate SameOffStack(fs: FileSystem, fs': FileSystem, stack: seq<string>) {
    && fs.canonical == fs'.canonical
    && forall file :: file !in stack ==>
      && (file in fs.contents <==> file in fs'.contents)
      && (file in fs.contents ==> fs.contents[file] == fs'.contents[file])
  }

  lemma {:induction false} ReadsOffStack(fs: FileSystem, fs': FileSystem, root: string, path: string,
                                         stack: seq<string>)
    requires SameOffStack(fs, fs', stack)
    ensures Inline(fs, root, path, stack) == Inline(fs', root, path, stack)
    decreases fs.canonical.Values - Elements(stack), 1, 0
  {
    hide Directives;
    if path in fs.canonical {
      var file := fs.canonical[path];
      if file !in stack && file in fs.contents {
        assert file in fs.canonical.Values - Elements(stack);
        assert file !in fs.canonical.Values - Elements(stack + [file]);
        LinesReadOffStack(fs, fs', root, file, FileDirectives(fs, root, file), stack + [file]);
      }
    }
  }

  lemma {:induction false} LinesReadOffStack(fs: FileSystem, fs': FileSystem, root: string, file: string,
                                             ds: seq<Directive>, stack: seq<string>)
    requires SameOffStack(fs, fs', stack)
    ensures InlineAll(fs, root, file, ds, stack) == InlineAll(fs', root, file, ds, stack)
    decreases fs.canonical.Values - Elements(stack), 2, |ds|
  {
    if ds != [] {
      var d := ds[|ds| - 1];
      LinesReadOffStack(fs, fs', root, file, ds[..|ds| - 1], stack);
      if d.Include? && d.path in fs.canonical {
        ReadsOffStack(fs, fs', root, d.path, stack);
      }
    }
  }

  // ---- One more row -----------------------------------------------------------------------------

  function RowDirectives(rows: seq<seq<string>>, root: string): (ds: seq<Directive>)
    requires ArePrintable(rows)
    ensures |ds| == |rows|
    ensures forall i :: 0 <= i < |rows| ==> ds[i] == ReadDirective(PrintRow(rows[i]), root)
  {
    Directives(PrintRows(rows), root)
  }

  lemma RowsAreDirectives(fs: FileSystem, root: string, file: string, rows: seq<seq<string>>)
    requires ArePrintable(rows)
    ensures FileDirectives(Holding(fs, file, rows), root, file) == RowDirectives(rows, root)
  {
    PrintedLines(rows);
  }

  lemma TextIsOfRows(fs: FileSystem, root: string, path: string, stack: seq<string>, rows: seq<seq<string>>)
    requires path in fs.canonical && fs.canonical[path] !in stack && ArePrintable(rows)
    ensures var file := fs.canonical[path];
      TextOf(fs, root, path, stack, rows) == InlineAll(fs, root, file, RowDirectives(rows, root), stack + [file])
  {
    hide InlineAll, PrintFile, FileDirectives;
    var file := fs.canonical[path];
    RowsAreDirectives(fs, root, file, rows);
    LinesReadOffStack(fs, Holding(fs, file, rows), root, file, RowDirectives(rows, root), stack + [file]);
  }

  /** The text after one more row, from the text before it. */
  lemma NextRow(fs: FileSystem, root: string, path: string, stack: seq<string>, rows: seq<seq<string>>,
                row: seq<string>)
    requires path in fs.canonical && fs.canonical[path] !in stack && ArePrintable(rows) && IsPrintable(row)
    ensures var file, before := fs.canonical[path], TextOf(fs, root, path, stack, rows);
      TextOf(fs, root, path, stack, rows + [row]) ==
        if before.error.Some? then before
        else
          var next :=
            InlineDirective(fs, root, file, ReadDirective(PrintRow(row), root), stack + [file], |before.visits|);
          Inlined(before.entries + next.entries, before.visits + next.visits, next.error)
  {
    hide InlineDirective, TextOf, ReadDirective, PrintRow;
    TextIsOfRows(fs, root, path, stack, rows);
    TextIsOfRows(fs, root, path, stack, rows + [row]);
    var ds := RowDirectives(rows + [row], root);
    assert ds[..|rows|] == RowDirectives(rows, root);
  }

  lemma RowReadsBack(row: seq<string>)
    requires IsPrintable(row)
    ensures Tokenizer.Tokens(PrintRow(row)) == row
  {
    PrintedLines([row]);
    assert ReadLines(PrintRows([row]))[0] == [row][0];
  }

  // ---- What the words of a row mean -----------------------------------------------------------------

  /** The path that a written one leads to: as it is, or below the workspace's root. */
  predicate LeadsTo(raw: string, root: string, target: string) {
    if "%workspace%/" <= raw then
      var rest := raw[12..];
      target ==
        if "/" <= rest then rest
        else if root == "" || "/" == root[|root| - 1..] then root + rest
        else root + "/" + rest
    else target == raw
  }

  /** An import of a file that exists, optional or not, is the text of that file. */
  lemma ImportsAreInlined(fs: FileSystem, root: string, path: string, stack: seq<string>, rows: seq<seq<string>>,
                          word: string, raw: string, target: string)
    requires path in fs.canonical && fs.canonical[path] !in stack && ArePrintable(rows) && '\n' !in raw
    requires word == "import" || word == "try-import"
    requires LeadsTo(raw, root, target) && target in fs.canonical
    ensures var before := TextOf(fs, root, path, stack, rows);
      var inner := Inline(fs, root, target, stack + [fs.canonical[path]]);
      before.error.None? ==>
        TextOf(fs, root, path, stack, rows + [[word, raw]]) ==
        Inlined(before.entries + Nest(inner.entries, None, |before.visits|), before.visits + inner.visits, inner.error)
  {
    hide TextOf, Inline, PrintRow;
    NextRow(fs, root, path, stack, rows, [word, raw]);
    RowReadsBack([word, raw]);
  }

  /** A gated import is the text of its file under the gate; a missing file is no error. */
  lemma GatedImportsAreInlined(fs: FileSystem, root: string, path: string, stack: seq<string>, rows: seq<seq<string>>,
                               gate: string, raw: string, target: string)
    requires path in fs.canonical && fs.canonical[path] !in stack && ArePrintable(rows)
    requires '\n' !in gate && '\n' !in raw && LeadsTo(raw, root, target)
    ensures var before := TextOf(fs, root, path, stack, rows);
      var inner := Inline(fs, root, target, stack + [fs.canonical[path]]);
      before.error.None? ==>
        TextOf(fs, root, path, stack, rows + [["try-import-if-bazel-version", gate, raw]]) ==
        if target !in fs.canonical then before
        else
          Inlined(before.entries + Nest(inner.entries, Some(gate), |before.visits|), before.visits + inner.visits,
            inner.error)
  {
    hide TextOf, Inline, PrintRow;
    var row := ["try-import-if-bazel-version", gate, raw];
    NextRow(fs, root, path, stack, rows, row);
    RowReadsBack(row);
    var before := TextOf(fs, root, path, stack, rows);
    assert before.entries + [] == before.entries && before.visits + [] == before.visits;
  }

  /** `try-import` of nothing adds nothing. */
  lemma NextOptionalIsSkipped(fs: FileSystem, root: string, path: string, stack: seq<string>, rows: seq<seq<string>>,
                              raw: string, target: string)
    requires path in fs.canonical && fs.canonical[path] !in stack && ArePrintable(rows) && '\n' !in raw
    requires LeadsTo(raw, root, target) && target !in fs.canonical
    ensures TextOf(fs, root, path, stack, rows + [["try-import", raw]]) == TextOf(fs, root, path, stack, rows)
  {
    hide TextOf, Inline, PrintRow;
    NextRow(fs, root, path, stack, rows, ["try-import", raw]);
    RowReadsBack(["try-import", raw]);
    var before := TextOf(fs, root, path, stack, rows);
    assert before.entries + [] == before.entries && before.visits + [] == before.visits;
  }

  /** Texts that agree so far agree after the same row. */
  lemma {:induction false} SameRowsFollow(fs: FileSystem, root: string, path: string, stack: seq<string>,
                                          a: seq<seq<string>>, b: seq<seq<string>>, more: seq<seq<string>>)
    requires path in fs.canonical && fs.canonical[path] !in stack
    requires ArePrintable(a) && ArePrintable(b) && ArePrintable(more)
    requires TextOf(fs, root, path, stack, a) == TextOf(fs, root, path, stack, b)
    ensures TextOf(fs, root, path, stack, a + more) == TextOf(fs, root, path, stack, b + more)
  {
    hide TextOf, InlineDirective, PrintRow, ReadDirective;
    if more == [] {
      assert a + more == a && b + more == b;
    } else {
      var front, row := more[..|more| - 1], more[|more| - 1];
      SameRowsFollow(fs, root, path, stack, a, b, front);
      assert a + more == a + front + [row] && b + more == b + front + [row];
      NextRow(fs, root, path, stack, a + front, row);
      NextRow(fs, root, path, stack, b + front, row);
    }
  }

  /** Wherever it stands, a `try-import` of a path that leads nowhere is as good as absent. */
  lemma MissingOptionalImportIsNoRow(fs: FileSystem, root: string, path: string, stack: seq<string>,
                                     before: seq<seq<string>>, after: seq<seq<string>>, raw: string, target: string)
    requires path in fs.canonical && fs.canonical[path] !in stack
    requires ArePrintable(before) && ArePrintable(after) && '\n' !in raw
    requires LeadsTo(raw, root, target) && target !in fs.canonical
    ensures TextOf(fs, root, path, stack, before + [["try-import", raw]] + after) ==
            TextOf(fs, root, path, stack, before + after)
  {
    hide TextOf;
    NextOptionalIsSkipped(fs, root, path, stack, before, raw, target);
    SameRowsFollow(fs, root, path, stack, before + [["try-import", raw]], before, after);
  }

  lemma {:induction false} RowsAfterAnErrorAreNotRead(fs: FileSystem, root: string, path: string, stack: seq<string>,
                                                      rows: seq<seq<string>>, more: seq<seq<string>>)
    requires path in fs.canonical && fs.canonical[path] !in stack && ArePrintable(rows) && ArePrintable(more)
    requires TextOf(fs, root, path, stack, rows).error.Some?
    ensures TextOf(fs, root, path, stack, rows + more) == TextOf(fs, root, path, stack, rows)
  {
    hide TextOf, InlineDirective, PrintRow, ReadDirective;
    if more == [] {
      assert rows + more == rows;
    } else {
      var front, row := more[..|more| - 1], more[|more| - 1];
      RowsAfterAnErrorAreNotRead(fs, root, path, stack, rows, front);
      assert rows + more == rows + front + [row];
      NextRow(fs, root, path, stack, rows + front, row);
    }
  }

  /** An `import` of a path that leads nowhere stops there, with an error that names it. */
  lemma MissingImportStops(fs: FileSystem, root: string, path: string, stack: seq<string>,
                           before: seq<seq<string>>, after: seq<seq<string>>, raw: string, target: string)
    requires path in fs.canonical && fs.canonical[path] !in stack
    requires ArePrintable(before) && ArePrintable(after) && '\n' !in raw
    requires LeadsTo(raw, root, target) && target !in fs.canonical
    requires TextOf(fs, root, path, stack, before).error.None?
    ensures TextOf(fs, root, path, stack, before + [["import", raw]] + after) ==
            TextOf(fs, root, path, stack, before).(error := Some(ImportNotFound(target)))
  {
    hide TextOf, Inline, PrintRow;
    NextRow(fs, root, path, stack, before, ["import", raw]);
    RowReadsBack(["import", raw]);
    var text := TextOf(fs, root, path, stack, before);
    assert text.entries + [] == text.entries && text.visits + [] == text.visits;
    RowsAfterAnErrorAreNotRead(fs, root, path, stack, before + [["import", raw]], after);
  }

  /** So does an import directive with the wrong number of words, with an error that quotes
      its line. */
  lemma WrongArityStops(fs: FileSystem, root: string, path: string, stack: seq<string>,
                        before: seq<seq<string>>, after: seq<seq<string>>, row: seq<string>)
    requires path in fs.canonical && fs.canonical[path] !in stack
    requires ArePrintable(before) && ArePrintable(after) && IsPrintable(row)
    requires row[0] in {"import", "try-import", "try-import-if-bazel-version"}
    requires |row| != if row[0] == "try-import-if-bazel-version" then 3 else 2
    requires TextOf(fs, root, path, stack, before).error.None?
    ensures TextOf(fs, root, path, stack, before + [row] + after) ==
            TextOf(fs, root, path, stack, before).(error := Some(InvalidImportArgs(PrintRow(row))))
  {
    hide TextOf, Inline, PrintRow, ReadDirective;
    NextRow(fs, root, path, stack, before, row);
    RowReadsBack(row);
    WrongArity(PrintRow(row), row, root);
    var text := TextOf(fs, root, path, stack, before);
    assert text.entries + [] == text.entries && text.visits + [] == text.visits;
    RowsAfterAnErrorAreNotRead(fs, root, path, stack, before + [row], after);
  }

  lemma WrongArity(line: string, row: seq<string>, root: string)
    requires row != [] && Tokenizer.Tokens(line) == row
    requires row[0] in {"import", "try-import", "try-import-if-bazel-version"}
    requires |row| != if row[0] == "try-import-if-bazel-version" then 3 else 2
    ensures ReadDirective(line, root) == Malformed(line)
  {
  }

  /** Any other row is a section line, whatever its first word. */
  lemma SectionRowsAreEntries(fs: FileSystem, root: string, path: string, stack: seq<string>, rows: seq<seq<string>>,
                              row: seq<string>)
    requires path in fs.canonical && fs.canonical[path] !in stack && ArePrintable(rows) && IsPrintable(row)
    requires row[0] !in {"import", "try-import", "try-import-if-bazel-version"}
    ensures var before := TextOf(fs, root, path, stack, rows);
      before.error.None? ==>
        TextOf(fs, root, path, stack, rows + [row]) ==
        before.(entries := before.entries + [Entry(row[0], row[1..], fs.canonical[path], 0, [])])
  {
    hide TextOf, Inline, PrintRow;
    NextRow(fs, root, path, stack, rows, row);
    RowReadsBack(row);
    var before := TextOf(fs, root, path, stack, rows);
    assert before.visits + [] == before.visits;
  }

  /** Where no row is read: an empty file, a path that leads nowhere, a file that cannot be
      read, and one that is being read already. */
  lemma NoRows(fs: FileSystem, root: string, path: string, stack: seq<string>)
    ensures path !in fs.canonical ==> Inline(fs, root, path, stack) == Inlined([], [], Some(Io(path)))
    ensures path in fs.canonical ==>
      var file := fs.canonical[path];
      && (file in stack ==> Inline(fs, root, path, stack) == Inlined([], [], Some(ImportCycle(stack + [file]))))
      && (file !in stack && file !in fs.contents ==>
          Inline(fs, root, path, stack) == Inlined([], [file], Some(Io(file))))
      && (file !in stack ==> TextOf(fs, root, path, stack, []) == Inlined([], [file], None))
  {
    if path in fs.canonical && fs.canonical[path] !in stack {
      TextIsOfRows(fs, root, path, stack, []);
    }
  }
}
