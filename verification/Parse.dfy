/** Recursive parsing of rc files (crates/bazelrc/src/parse.rs): imports are inlined where
    they stand, into buckets shared by the whole recursion. */
module Parser {
  import opened Prelude
  import opened Rc
  import opened Walks
  import P = Preprocessor
  import T = Tokenizer

  /** The files there are: which canonical path a written path leads to, and the text of
      the canonical paths that can be read. */
  datatype FileSystem = FileSystem(canonical: map<string, string>, contents: map<string, string>)

  // ---- Directives -------------------------------------------------------------------

  datatype Directive =
    | Nothing
    | Include(path: string, required: bool, gate: Option<string>)
    | Section(key: string, values: seq<string>)
    | Malformed(line: string)

  const WORKSPACE := "%workspace%/"

  /** Joining a path to a directory; an absolute path replaces it. */
  function JoinPath(root: string, rest: string): string {
    if "/" <= rest then rest
    else if root == "" || root[|root| - 1] == '/' then root + rest
    else root + "/" + rest
  }

  function ResolveImportPath(raw: string, root: string): string {
    if WORKSPACE <= raw then JoinPath(root, raw[|WORKSPACE|..]) else raw
  }

  function ReadDirective(line: string, root: string): Directive {
    var tokens := T.Tokens(line);
    if tokens == [] then Nothing
    else if tokens[0] == "import" then
      if |tokens| != 2 then Malformed(line) else Include(ResolveImportPath(tokens[1], root), true, None)
    else if tokens[0] == "try-import" then
      if |tokens| != 2 then Malformed(line) else Include(ResolveImportPath(tokens[1], root), false, None)
    else if tokens[0] == "try-import-if-bazel-version" then
      if |tokens| != 3 then Malformed(line)
      else Include(ResolveImportPath(tokens[2], root), false, Some(tokens[1]))
    else Section(tokens[0], tokens[1..])
  }

  function Directives(lines: seq<string>, root: string): (ds: seq<Directive>)
    ensures |ds| == |lines|
    ensures forall i :: 0 <= i < |lines| ==> ds[i] == ReadDirective(lines[i], root)
  {
    if lines == [] then [] else [ReadDirective(lines[0], root)] + Directives(lines[1..], root)
  }

  function FileDirectives(fs: FileSystem, root: string, file: string): seq<Directive> {
    if file in fs.contents then Directives(P.Process(fs.contents[file]), root) else []
  }

  // ---- Textual inlining ---------------------------------------------------------------

  /** A section line in the inlined text, with its provenance: the file it was read from,
      which visit to a file that was, and the gates of the imports that led there,
      outermost first. */
  datatype Entry = Entry(key: string, values: seq<string>, file: string, visit: nat, gates: seq<Option<string>>)

  /** Inlined text: its section lines, the files visited in order, and what stopped it. */
  datatype Inlined = Inlined(entries: seq<Entry>, visits: seq<string>, error: Option<RcError>)

  /** Entries of an import, seen from the importing file. */
  function Nest(entries: seq<Entry>, gate: Option<string>, offset: nat): seq<Entry> {
    if entries == [] then []
    else
      var n := |entries| - 1;
      Nest(entries[..n], gate, offset) + [NestOne(entries[n], gate, offset)]
  }

  function NestOne(e: Entry, gate: Option<string>, offset: nat): Entry {
    e.(visit := offset + e.visit, gates := [gate] + e.gates)
  }

  /** The text of a file with every import replaced by the text it imports. */
  function Inline(fs: FileSystem, root: string, path: string, stack: seq<string>): (text: Inlined)
    decreases fs.canonical.Values - Elements(stack), 1, 0
  {
    if path !in fs.canonical then Inlined([], [], Some(Io(path)))
    else
      var file := fs.canonical[path];
      if file in stack then Inlined([], [], Some(ImportCycle(stack + [file])))
      else if file !in fs.contents then Inlined([], [file], Some(Io(file)))
      else
        assert file in fs.canonical.Values - Elements(stack);
        assert file !in fs.canonical.Values - Elements(stack + [file]);
        InlineAll(fs, root, file, FileDirectives(fs, root, file), stack + [file])
  }

  function InlineAll(fs: FileSystem, root: string, file: string, ds: seq<Directive>,
                     stack: seq<string>): (text: Inlined)
    ensures text.visits != [] && text.visits[0] == file
    decreases fs.canonical.Values - Elements(stack), 3, |ds|
  {
    if ds == [] then Inlined([], [file], None)
    else
      var before := InlineAll(fs, root, file, ds[..|ds| - 1], stack);
      if before.error.Some? then before
      else
        var next := InlineDirective(fs, root, file, ds[|ds| - 1], stack, |before.visits|);
        Inlined(before.entries + next.entries, before.visits + next.visits, next.error)
  }

  /** The text of one directive, `visited` files having been visited in this one so far. */
  function InlineDirective(fs: FileSystem, root: string, file: string, d: Directive, stack: seq<string>,
                           visited: nat): (text: Inlined)
    decreases fs.canonical.Values - Elements(stack), 2, 0
  {
    match d
    case Nothing => Inlined([], [], None)
    case Malformed(line) => Inlined([], [], Some(InvalidImportArgs(line)))
    case Section(key, values) => Inlined([Entry(key, values, file, 0, [])], [], None)
    case Include(path, required, gate) =>
      if path in fs.canonical then
        var inner := Inline(fs, root, path, stack);
        Inlined(Nest(inner.entries, gate, visited), inner.visits, inner.error)
      else Inlined([], [], if required then Some(ImportNotFound(path)) else None)
  }

  // ---- What the inlined text does to the buckets -------------------------------------

  /** The options of one section line. */
  function LineOptions(key: string, values: seq<string>, source: nat, condition: Option<string>): seq<RcOption> {
    if values == [] then []
    else
      var n := |values| - 1;
      LineOptions(key, values[..n], source, condition) + [RcOption(values[n], key, source, condition)]
  }

  function EntryOptions(e: Entry, outer: Option<string>, base: nat): seq<RcOption> {
    LineOptions(e.key, e.values, base + e.visit, Innermost(outer, e.gates))
  }

  function Append(options: Options, key: string, more: seq<RcOption>): Options {
    options[key := RawOptions(options, key) + more]
  }

  function Absorb(options: Options, entries: seq<Entry>, outer: Option<string>, base: nat): Options {
    if entries == [] then options
    else
      var e := entries[|entries| - 1];
      Append(Absorb(options, entries[..|entries| - 1], outer, base), e.key, EntryOptions(e, outer, base))
  }

  lemma {:induction false} AbsorbConcat(options: Options, a: seq<Entry>, b: seq<Entry>, outer: Option<string>,
                                        base: nat)
    ensures Absorb(options, a + b, outer, base) == Absorb(Absorb(options, a, outer, base), b, outer, base)
  {
    if b == [] {
      assert a + b == a;
    } else {
      assert (a + b)[..|a + b| - 1] == a + b[..|b| - 1];
      AbsorbConcat(options, a, b[..|b| - 1], outer, base);
    }
  }

  /** Absorbing nested entries is absorbing the import under the inherited gate. */
  lemma {:induction false} AbsorbNested(options: Options, entries: seq<Entry>, gate: Option<string>, offset: nat,
                                        outer: Option<string>, base: nat)
    ensures Absorb(options, Nest(entries, gate, offset), outer, base) ==
            Absorb(options, entries, Inherit(outer, gate), base + offset)
  {
    if entries != [] {
      var n := |entries| - 1;
      var nested, one := Nest(entries[..n], gate, offset), NestOne(entries[n], gate, offset);
      AbsorbNested(options, entries[..n], gate, offset, outer, base);
      NestedOptions(entries[n], gate, offset, outer, base);
      assert (nested + [one])[..|nested|] == nested;
    }
  }

  lemma NestedOptions(e: Entry, gate: Option<string>, offset: nat, outer: Option<string>, base: nat)
    ensures EntryOptions(NestOne(e, gate, offset), outer, base) == EntryOptions(e, Inherit(outer, gate), base + offset)
  {
    assert NestOne(e, gate, offset).gates[1..] == e.gates;
  }

  // ---- The parser ----------------------------------------------------------------------

  /** The buffers that the recursion shares. */
  class RcParser {
    var sources: seq<string>
    var options: Options
    var importStack: seq<string>

    constructor ()
      ensures sources == [] && options == map[] && importStack == []
    {
      sources, options, importStack := [], map[], [];
    }

    /** Parses one file into the shared buffers: they grow by exactly the inlined text of
        the file, up to the directive that fails if one does. */
    method ParseFile(fs: FileSystem, root: string, path: string, condition: Option<string>)
        returns (error: Option<RcError>)
      modifies this
      ensures var text := Inline(fs, root, path, old(importStack));
        && error == text.error
        && sources == old(sources) + text.visits
        && options == Absorb(old(options), text.entries, condition, |old(sources)|)
      ensures error.None? ==> importStack == old(importStack)
      decreases fs.canonical.Values - Elements(importStack), 2
    {
      hide Absorb, InlineAll, FileDirectives;
      NothingParsed(fs, root, path, importStack, options, condition, |sources|);
      if path !in fs.canonical {
        return Some(Io(path));
      }
      var file := fs.canonical[path];
      if file in importStack {
        return Some(ImportCycle(importStack + [file]));
      }
      assert file in fs.canonical.Values - Elements(importStack);
      importStack := importStack + [file];
      assert file !in fs.canonical.Values - Elements(importStack);
      var sourceIndex := |sources|;
      sources := sources + [file];
      if file !in fs.contents {
        return Some(Io(file));
      }
      assert FileDirectives(fs, root, file) == Directives(P.Process(fs.contents[file]), root) by {
        FileIsItsLines(fs, root, file);
      }
      error := ParseLines(fs, root, file, P.Process(fs.contents[file]), sourceIndex, condition);
      if error.None? {
        importStack := importStack[..|importStack| - 1];
      }
    }

    /** The lines of the file just entered, in order. */
    method ParseLines(fs: FileSystem, root: string, ghost file: string, lines: seq<string>, sourceIndex: nat,
                      condition: Option<string>)
        returns (error: Option<RcError>)
      requires |sources| == sourceIndex + 1
      modifies this
      ensures var text := InlineAll(fs, root, file, Directives(lines, root), old(importStack));
        && error == text.error
        && sources == old(sources) + text.visits[1..]
        && options == Absorb(old(options), text.entries, condition, sourceIndex)
      ensures error.None? ==> importStack == old(importStack)
      decreases fs.canonical.Values - Elements(importStack), 4
    {
      hide Absorb, InlineAll, InlineDirective, ReadDirective;
      ghost var ds := Directives(lines, root);
      ghost var done := Inlined([], [file], None);
      assert ds[..0] == [] && options == Absorb(options, [], condition, sourceIndex)
        && done == InlineAll(fs, root, file, [], importStack) by {
        NothingParsed(fs, root, file, importStack, options, condition, sourceIndex);
      }
      var n := 0;
      while n < |lines|
        invariant 0 <= n <= |lines|
        invariant importStack == old(importStack)
        invariant done == InlineAll(fs, root, file, ds[..n], importStack) && done.error.None? && done.visits != []
        invariant sources == old(sources) + done.visits[1..]
        invariant options == Absorb(old(options), done.entries, condition, sourceIndex)
      {
        NextDirective(fs, root, file, ds, n, importStack, old(options), options, condition, sourceIndex,
          ReadDirective(lines[n], root), |sources| - sourceIndex);
        done := InlineAll(fs, root, file, ds[..n + 1], importStack);
        error := ParseLine(fs, root, file, lines[n], sourceIndex, condition);
        if error.Some? {
          Stops(fs, root, file, ds, n, old(importStack));
          return;
        }
        n := n + 1;
      }
      assert ds[..n] == ds;
      error := None;
    }

    /** One line of the file being parsed. */
    method ParseLine(fs: FileSystem, root: string, ghost file: string, line: string, sourceIndex: nat,
                     condition: Option<string>)
        returns (error: Option<RcError>)
      requires sourceIndex < |sources|
      modifies this
      ensures var text :=
        InlineDirective(fs, root, file, ReadDirective(line, root), old(importStack), |old(sources)| - sourceIndex);
        && error == text.error
        && sources == old(sources) + text.visits
        && options == Absorb(old(options), text.entries, condition, sourceIndex)
      ensures error.None? ==> importStack == old(importStack)
      decreases fs.canonical.Values - Elements(importStack), 3
    {
      ghost var visited := |sources| - sourceIndex;
      ghost var d := ReadDirective(line, root);
      ghost var text := InlineDirective(fs, root, file, d, importStack, visited);
      error := None;
      var tokens := T.Tokenize(line);
      if tokens == [] {
        assert text.entries == [];
        return;
      }
      if tokens[0] == "import" || tokens[0] == "try-import" {
        if |tokens| != 2 {
          assert text.entries == [];
          return Some(InvalidImportArgs(line));
        }
        var importPath := ResolveImportPath(tokens[1], root);
        if importPath in fs.canonical {
          assert d == Include(importPath, tokens[0] == "import", None);
          ImportedText(fs, root, file, d, importStack, visited, options, condition, sourceIndex, condition, |sources|);
          error := ParseFile(fs, root, importPath, condition);
        } else {
          assert text.entries == [];
          if tokens[0] == "import" {
            return Some(ImportNotFound(importPath));
          }
        }
      } else if tokens[0] == "try-import-if-bazel-version" {
        if |tokens| != 3 {
          assert text.entries == [];
          return Some(InvalidImportArgs(line));
        }
        var importPath := ResolveImportPath(tokens[2], root);
        if importPath in fs.canonical {
          assert d == Include(importPath, false, Some(tokens[1]));
          ImportedText(fs, root, file, d, importStack, visited, options, condition, sourceIndex, Some(tokens[1]),
            |sources|);
          error := ParseFile(fs, root, importPath, Some(tokens[1]));
        } else {
          assert text.entries == [];
        }
      } else {
        ghost var e := Entry(tokens[0], tokens[1..], file, 0, []);
        assert text.entries == [e];
        assert EntryOptions(e, condition, sourceIndex) == LineOptions(tokens[0], tokens[1..], sourceIndex, condition);
        AbsorbOne(options, e, condition, sourceIndex);
        PushSection(tokens[0], tokens[1..], sourceIndex, condition);
      }
    }

    /** One section line: its values become options at the end of the bucket. */
    method PushSection(key: string, values: seq<string>, sourceIndex: nat, condition: Option<string>)
      modifies this`options
      ensures options == Append(old(options), key, LineOptions(key, values, sourceIndex, condition))
    {
      var bucket := RawOptions(options, key);
      ghost var was := bucket;
      var i := 0;
      while i < |values|
        invariant 0 <= i <= |values|
        invariant bucket == was + LineOptions(key, values[..i], sourceIndex, condition)
      {
        assert values[..i + 1][..i] == values[..i];
        bucket := bucket + [RcOption(values[i], key, sourceIndex, condition)];
        i := i + 1;
      }
      assert values[..i] == values;
      options := options[key := bucket];
    }
  }

  lemma ImportedText(fs: FileSystem, root: string, file: string, d: Directive, stack: seq<string>, visited: nat,
                     options: Options, outer: Option<string>, base: nat, gate: Option<string>, start: nat)
    requires d.Include? && d.path in fs.canonical && gate == Inherit(outer, d.gate) && start == base + visited
    ensures var text, inner := InlineDirective(fs, root, file, d, stack, visited), Inline(fs, root, d.path, stack);
      && text.visits == inner.visits && text.error == inner.error
      && Absorb(options, text.entries, outer, base) == Absorb(options, inner.entries, gate, start)
  {
    hide Inline, Absorb, Nest;
    AbsorbNested(options, Inline(fs, root, d.path, stack).entries, d.gate, visited, outer, base);
  }

  lemma NothingParsed(fs: FileSystem, root: string, file: string, stack: seq<string>, options: Options,
                      outer: Option<string>, base: nat)
    ensures InlineAll(fs, root, file, [], stack) == Inlined([], [file], None)
    ensures Absorb(options, [], outer, base) == options
  {
  }

  lemma FileIsItsLines(fs: FileSystem, root: string, file: string)
    requires file in fs.contents
    ensures FileDirectives(fs, root, file) == Directives(P.Process(fs.contents[file]), root)
  {
  }

  lemma AbsorbOne(options: Options, e: Entry, outer: Option<string>, base: nat)
    ensures Absorb(options, [e], outer, base) == Append(options, e.key, EntryOptions(e, outer, base))
  {
    assert [e][..0] == [];
  }

  lemma NextDirective(fs: FileSystem, root: string, file: string, ds: seq<Directive>, n: nat, stack: seq<string>,
                      options: Options, reached: Options, outer: Option<string>, base: nat, d: Directive, visited: nat)
    requires n < |ds| && d == ds[n]
    requires var before := InlineAll(fs, root, file, ds[..n], stack);
      before.error.None? && visited == |before.visits| && reached == Absorb(options, before.entries, outer, base)
    ensures var before := InlineAll(fs, root, file, ds[..n], stack);
      var next := InlineDirective(fs, root, file, d, stack, visited);
      var after := InlineAll(fs, root, file, ds[..n + 1], stack);
      && after.error == next.error && after.visits == before.visits + next.visits
      && after.entries == before.entries + next.entries
      && Absorb(options, after.entries, outer, base) == Absorb(reached, next.entries, outer, base)
  {
    assert ds[..n + 1][..n] == ds[..n];
    var before := InlineAll(fs, root, file, ds[..n], stack);
    var next := InlineDirective(fs, root, file, d, stack, visited);
    AbsorbConcat(options, before.entries, next.entries, outer, base);
  }

  /** A directive that fails ends the inlining there. */
  lemma {:induction false} Stops(fs: FileSystem, root: string, file: string, ds: seq<Directive>, n: nat,
                                 stack: seq<string>)
    requires n < |ds| && InlineAll(fs, root, file, ds[..n + 1], stack).error.Some?
    ensures InlineAll(fs, root, file, ds, stack) == InlineAll(fs, root, file, ds[..n + 1], stack)
    decreases |ds|
  {
    if |ds| == n + 1 {
      assert ds[..n + 1] == ds;
    } else {
      var most := ds[..|ds| - 1];
      assert most[..n + 1] == ds[..n + 1];
      Stops(fs, root, file, most, n, stack);
    }
  }
}
