/** What parsing with imports means: where every option comes from, when parsing
    succeeds, and what an import cycle report says. */
module ParserTheory {
  import opened Prelude
  import opened Rc
  import opened Walks
  import opened Parser

  // ---- The buckets ----------------------------------------------------------------

  /** The options of section `key` in a text, in the order of the text. */
  function SectionText(entries: seq<Entry>, key: string, outer: Option<string>, base: nat): seq<RcOption> {
    if entries == [] then []
    else
      var e := entries[|entries| - 1];
      var before := SectionText(entries[..|entries| - 1], key, outer, base);
      if e.key == key then before + EntryOptions(e, outer, base) else before
  }

  /** Every bucket grows at its end by the options of its section in the inlined text. */
  lemma {:induction false} BucketsGrowByText(options: Options, entries: seq<Entry>, outer: Option<string>, base: nat,
                                             key: string)
    ensures RawOptions(Absorb(options, entries, outer, base), key) ==
            RawOptions(options, key) + SectionText(entries, key, outer, base)
  {
    if entries != [] {
      BucketsGrowByText(options, entries[..|entries| - 1], outer, base, key);
    }
  }

  // ---- Provenance -----------------------------------------------------------------

  /** A chain of imports from one file to another, met under exactly these gates. */
  ghost predicate ImportTrail(fs: FileSystem, root: string, from: string, gates: seq<Option<string>>, to: string)
    decreases |gates|
  {
    if gates == [] then from == to
    else exists d :: d in FileDirectives(fs, root, from) && d.Include? && d.gate == gates[0]
                     && d.path in fs.canonical && ImportTrail(fs, root, fs.canonical[d.path], gates[1..], to)
  }

  /** The entry is a section line of the file it names, which the trail leads to, and the
      visit it names is a visit to that file. */
  ghost predicate Traced(fs: FileSystem, root: string, from: string, e: Entry, visits: seq<string>) {
    && Section(e.key, e.values) in FileDirectives(fs, root, e.file)
    && ImportTrail(fs, root, from, e.gates, e.file)
    && e.visit < |visits| && visits[e.visit] == e.file
  }

  ghost predicate AllTraced(fs: FileSystem, root: string, from: string, entries: seq<Entry>, visits: seq<string>) {
    forall e :: e in entries ==> Traced(fs, root, from, e, visits)
  }

  /** Every line of the inlined text really stands in the file it is attributed to, and
      the gates it carries are those of a chain of imports leading there. */
  lemma {:induction false} InlinedTextIsTraced(fs: FileSystem, root: string, path: string, stack: seq<string>)
    requires path in fs.canonical
    ensures var text := Inline(fs, root, path, stack);
      AllTraced(fs, root, fs.canonical[path], text.entries, text.visits)
    decreases fs.canonical.Values - Elements(stack), 1, 0
  {
    var file := fs.canonical[path];
    if file !in stack && file in fs.contents {
      assert file in fs.canonical.Values - Elements(stack);
      assert file !in fs.canonical.Values - Elements(stack + [file]);
      var ds := FileDirectives(fs, root, file);
      assert forall d :: d in ds ==> d in FileDirectives(fs, root, file);
      LinesAreTraced(fs, root, file, ds, stack + [file]);
    }
  }

  lemma {:induction false} LinesAreTraced(fs: FileSystem, root: string, file: string, ds: seq<Directive>,
                                          stack: seq<string>)
    requires forall d :: d in ds ==> d in FileDirectives(fs, root, file)
    ensures var text := InlineAll(fs, root, file, ds, stack);
      AllTraced(fs, root, file, text.entries, text.visits)
    decreases fs.canonical.Values - Elements(stack), 2, |ds|
  {
    if ds != [] {
      var n := |ds| - 1;
      var before, text := InlineAll(fs, root, file, ds[..n], stack), InlineAll(fs, root, file, ds, stack);
      LinesAreTraced(fs, root, file, ds[..n], stack);
      if before.error.None? {
        var d := ds[n];
        var next := InlineDirective(fs, root, file, d, stack, |before.visits|);
        assert text.entries == before.entries + next.entries && text.visits == before.visits + next.visits;
        if d.Include? && d.path in fs.canonical {
          var inner := Inline(fs, root, d.path, stack);
          InlinedTextIsTraced(fs, root, d.path, stack);
          NestedIsTraced(fs, root, file, d, inner.entries, inner.visits, before.visits);
        }
        forall e | e in text.entries ensures Traced(fs, root, file, e, text.visits) {
          if e in before.entries {
            assert Traced(fs, root, file, e, before.visits);
          } else {
            assert e in next.entries;
          }
        }
      }
    }
  }

  lemma {:induction false} NestedIsTraced(fs: FileSystem, root: string, file: string, d: Directive,
                                          entries: seq<Entry>, inner: seq<string>, visits: seq<string>)
    requires d in FileDirectives(fs, root, file) && d.Include? && d.path in fs.canonical
    requires AllTraced(fs, root, fs.canonical[d.path], entries, inner)
    ensures AllTraced(fs, root, file, Nest(entries, d.gate, |visits|), visits + inner)
  {
    hide FileDirectives, Traced, NestOne;
    if entries != [] {
      var e := entries[|entries| - 1];
      NestedIsTraced(fs, root, file, d, entries[..|entries| - 1], inner, visits);
      NestedOneIsTraced(fs, root, file, d, e, inner, visits);
    }
  }

  lemma NestedOneIsTraced(fs: FileSystem, root: string, file: string, d: Directive, e: Entry, inner: seq<string>,
                          visits: seq<string>)
    requires d.Include? && d.path in fs.canonical
    ensures d in FileDirectives(fs, root, file) && Traced(fs, root, fs.canonical[d.path], e, inner) ==>
      Traced(fs, root, file, NestOne(e, d.gate, |visits|), visits + inner)
  {
    hide FileDirectives;
    var up := NestOne(e, d.gate, |visits|);
    assert up.gates[1..] == e.gates;
  }

  /** Options stand in the bucket of their own section and name a source that exists. */
  ghost predicate Consistent(options: Options, sources: seq<string>) {
    forall key, i :: key in options && 0 <= i < |options[key]| ==>
      options[key][i].command == key && options[key][i].sourceIndex < |sources|
  }

  /** Parsing keeps the buckets consistent with the sources. */
  lemma ParsingKeepsConsistent(fs: FileSystem, root: string, path: string, stack: seq<string>,
                               options: Options, sources: seq<string>, condition: Option<string>)
    requires Consistent(options, sources)
    ensures var text := Inline(fs, root, path, stack);
      Consistent(Absorb(options, text.entries, condition, |sources|), sources + text.visits)
  {
    var text := Inline(fs, root, path, stack);
    if path in fs.canonical {
      InlinedTextIsTraced(fs, root, path, stack);
      forall e | e in text.entries ensures e.visit < |text.visits| {
        assert Traced(fs, root, fs.canonical[path], e, text.visits);
      }
    }
    AbsorbKeepsConsistent(options, sources, text.entries, text.visits, condition);
  }

  lemma {:induction false} AbsorbKeepsConsistent(options: Options, sources: seq<string>, entries: seq<Entry>,
                                                 visits: seq<string>, outer: Option<string>)
    requires Consistent(options, sources) && forall e :: e in entries ==> e.visit < |visits|
    ensures Consistent(Absorb(options, entries, outer, |sources|), sources + visits)
  {
    if entries != [] {
      var e := entries[|entries| - 1];
      AbsorbKeepsConsistent(options, sources, entries[..|entries| - 1], visits, outer);
      LineOptionsAt(e.key, e.values, |sources| + e.visit, Innermost(outer, e.gates));
    }
  }

  lemma {:induction false} LineOptionsAt(key: string, values: seq<string>, source: nat, condition: Option<string>)
    ensures |LineOptions(key, values, source, condition)| == |values|
    ensures forall i :: 0 <= i < |values| ==>
      LineOptions(key, values, source, condition)[i] == RcOption(values[i], key, source, condition)
  {
    if values != [] {
      LineOptionsAt(key, values[..|values| - 1], source, condition);
    }
  }

  // ---- When parsing succeeds --------------------------------------------------------

  /** The existing files that a file imports. */
  function ImportTargets(fs: FileSystem, root: string, file: string): set<string> {
    set d | d in FileDirectives(fs, root, file) && d.Include? && d.path in fs.canonical :: fs.canonical[d.path]
  }

  function ImportGraph(fs: FileSystem, root: string): Graph {
    map file | file in fs.canonical.Values :: ImportTargets(fs, root, file)
  }

  /** Directives have the right arity and required imports exist. */
  predicate SoundDirective(fs: FileSystem, d: Directive) {
    !d.Malformed? && (d.Include? && d.required ==> d.path in fs.canonical)
  }

  predicate Loadable(fs: FileSystem, root: string, file: string) {
    file in fs.contents && forall d :: d in FileDirectives(fs, root, file) ==> SoundDirective(fs, d)
  }

  ghost function Unloadable(fs: FileSystem, root: string): iset<string> {
    iset file | !Loadable(fs, root, file)
  }

  ghost predicate DirectivePasses(fs: FileSystem, root: string, d: Directive, stack: seq<string>) {
    SoundDirective(fs, d) &&
    (d.Include? && d.path in fs.canonical ==>
       Descends(ImportGraph(fs, root), Unloadable(fs, root), fs.canonical[d.path], stack))
  }

  lemma {:induction false} InlineIffDescends(fs: FileSystem, root: string, path: string, stack: seq<string>)
    requires path in fs.canonical
    ensures Inline(fs, root, path, stack).error.None? <==>
            Descends(ImportGraph(fs, root), Unloadable(fs, root), fs.canonical[path], stack)
    decreases fs.canonical.Values - Elements(stack), 1, 0
  {
    var g, bad, file := ImportGraph(fs, root), Unloadable(fs, root), fs.canonical[path];
    if file !in stack && file in fs.contents {
      assert file in fs.canonical.Values - Elements(stack);
      assert file !in fs.canonical.Values - Elements(stack + [file]);
      var ds := FileDirectives(fs, root, file);
      InlineAllIff(fs, root, file, ds, stack + [file]);
      assert g[file] == ImportTargets(fs, root, file);
      if Descends(g, bad, file, stack) {
        forall d | d in ds ensures DirectivePasses(fs, root, d, stack + [file]) {
        }
      }
      if forall d :: d in ds ==> DirectivePasses(fs, root, d, stack + [file]) {
        forall m | m in g[file] ensures Descends(g, bad, m, stack + [file]) {
          var d :| d in ds && d.Include? && d.path in fs.canonical && fs.canonical[d.path] == m;
          assert DirectivePasses(fs, root, d, stack + [file]);
        }
        forall d | d in ds ensures SoundDirective(fs, d) {
          assert DirectivePasses(fs, root, d, stack + [file]);
        }
      }
    }
  }

  lemma {:induction false} InlineAllIff(fs: FileSystem, root: string, file: string, ds: seq<Directive>,
                                        stack: seq<string>)
    ensures InlineAll(fs, root, file, ds, stack).error.None? <==>
      forall d :: d in ds ==> DirectivePasses(fs, root, d, stack)
    decreases fs.canonical.Values - Elements(stack), 2, |ds|
  {
    if ds != [] {
      var n := |ds| - 1;
      InlineAllIff(fs, root, file, ds[..n], stack);
      if ds[n].Include? && ds[n].path in fs.canonical {
        InlineIffDescends(fs, root, ds[n].path, stack);
      }
      var before := InlineAll(fs, root, file, ds[..n], stack);
      if before.error.None? {
        var next := InlineDirective(fs, root, file, ds[n], stack, |before.visits|);
        assert InlineAll(fs, root, file, ds, stack).error == next.error;
        assert next.error.None? <==> DirectivePasses(fs, root, ds[n], stack);
      }
      assert ds == ds[..n] + [ds[n]];
      assert forall d :: d in ds <==> d in ds[..n] || d == ds[n];
    }
  }

  /** A file parses exactly when it exists and every chain of imports from it repeats no
      file and meets only files that can be read, with directives of the right arity and
      required imports that exist. Importing a file along two different chains is fine. */
  lemma ParsesIffImportsAreClean(fs: FileSystem, root: string, path: string)
    ensures Inline(fs, root, path, []).error.None? <==>
            path in fs.canonical && AllWalksClean(ImportGraph(fs, root), Unloadable(fs, root), fs.canonical[path], [])
  {
    if path in fs.canonical {
      InlineIffDescends(fs, root, path, []);
      DescentIffAllWalksClean(ImportGraph(fs, root), Unloadable(fs, root), fs.canonical[path], []);
    }
  }

  /** The import stack only guards: on success the text does not depend on it. */
  lemma {:induction false} TextIgnoresStack(fs: FileSystem, root: string, path: string, stack: seq<string>,
                                            stack': seq<string>)
    requires Inline(fs, root, path, stack).error.None? && Inline(fs, root, path, stack').error.None?
    ensures Inline(fs, root, path, stack) == Inline(fs, root, path, stack')
    decreases fs.canonical.Values - Elements(stack), 1, 0
  {
    var file := fs.canonical[path];
    assert file in fs.canonical.Values - Elements(stack);
    assert file !in fs.canonical.Values - Elements(stack + [file]);
    LinesIgnoreStack(fs, root, file, FileDirectives(fs, root, file), stack + [file], stack' + [file]);
  }

  lemma {:induction false} LinesIgnoreStack(fs: FileSystem, root: string, file: string, ds: seq<Directive>,
                                            stack: seq<string>, stack': seq<string>)
    requires InlineAll(fs, root, file, ds, stack).error.None? && InlineAll(fs, root, file, ds, stack').error.None?
    ensures InlineAll(fs, root, file, ds, stack) == InlineAll(fs, root, file, ds, stack')
    decreases fs.canonical.Values - Elements(stack), 2, |ds|
  {
    if ds != [] {
      var d := ds[|ds| - 1];
      LinesIgnoreStack(fs, root, file, ds[..|ds| - 1], stack, stack');
      if d.Include? && d.path in fs.canonical {
        TextIgnoresStack(fs, root, d.path, stack, stack');
      }
    }
  }

  // ---- Cycle reports ------------------------------------------------------------------

  lemma {:induction false} CycleReportIsReal(fs: FileSystem, root: string, path: string, stack: seq<string>)
    requires path in fs.canonical && IsWalk(ImportGraph(fs, root), stack + [fs.canonical[path]])
    ensures var error := Inline(fs, root, path, stack).error;
      error.Some? && error.value.ImportCycle? ==> ClosesCycle(ImportGraph(fs, root), error.value.chain)
    decreases fs.canonical.Values - Elements(stack), 1, 0
  {
    var file := fs.canonical[path];
    if file in stack {
      assert (stack + [file])[..|stack|] == stack;
    } else if file in fs.contents {
      assert file in fs.canonical.Values - Elements(stack);
      assert file !in fs.canonical.Values - Elements(stack + [file]);
      var ds := FileDirectives(fs, root, file);
      assert forall d :: d in ds ==> d in FileDirectives(fs, root, file);
      CycleReportsAreReal(fs, root, file, ds, stack + [file]);
    }
  }

  lemma {:induction false} CycleReportsAreReal(fs: FileSystem, root: string, file: string, ds: seq<Directive>,
                                               stack: seq<string>)
    requires file in fs.canonical.Values
    requires stack != [] && stack[|stack| - 1] == file && IsWalk(ImportGraph(fs, root), stack)
    requires forall d :: d in ds ==> d in FileDirectives(fs, root, file)
    ensures var error := InlineAll(fs, root, file, ds, stack).error;
      error.Some? && error.value.ImportCycle? ==> ClosesCycle(ImportGraph(fs, root), error.value.chain)
    decreases fs.canonical.Values - Elements(stack), 2, |ds|
  {
    if ds != [] {
      var d := ds[|ds| - 1];
      CycleReportsAreReal(fs, root, file, ds[..|ds| - 1], stack);
      if d.Include? && d.path in fs.canonical {
        assert fs.canonical[d.path] in ImportTargets(fs, root, file);
        WalkExtends(ImportGraph(fs, root), stack, fs.canonical[d.path]);
        CycleReportIsReal(fs, root, d.path, stack);
      }
    }
  }

  /** An import cycle is only ever reported with a real import chain that closes on itself. */
  lemma ReportedCycleIsReal(fs: FileSystem, root: string, path: string)
    ensures var error := Inline(fs, root, path, []).error;
      error.Some? && error.value.ImportCycle? ==> ClosesCycle(ImportGraph(fs, root), error.value.chain)
  {
    if path in fs.canonical {
      assert [] + [fs.canonical[path]] == [fs.canonical[path]];
      CycleReportIsReal(fs, root, path, []);
    }
  }
}
