/** The gates of nested imports: parsing keeps the innermost one per option; here that is
    compared with all the gates on the way. */
module ImportGates {
  import opened Prelude
  import opened Rc
  import opened Parser
  import opened ParserTheory
  import P = Preprocessor
  import RoundTrip
  import Tokenizer

  /** The gates of one chain of imports per visit. */
  type Trails = seq<seq<Option<string>>>

  // ---- Every trail is inlined ---------------------------------------------------------------

  lemma {:induction false} NestAt(entries: seq<Entry>, gate: Option<string>, offset: nat)
    ensures |Nest(entries, gate, offset)| == |entries|
    ensures forall i :: 0 <= i < |entries| ==> Nest(entries, gate, offset)[i] == NestOne(entries[i], gate, offset)
  {
    if entries != [] {
      NestAt(entries[..|entries| - 1], gate, offset);
    }
  }

  /** A directive among the lines read contributes its text; `visited` files came before it. */
  lemma {:induction false} DirectiveIsInlined(fs: FileSystem, root: string, file: string, ds: seq<Directive>,
                                              stack: seq<string>, d: Directive)
      returns (visited: nat)
    requires InlineAll(fs, root, file, ds, stack).error.None? && d in ds
    ensures InlineDirective(fs, root, file, d, stack, visited).error.None?
    ensures forall e :: e in InlineDirective(fs, root, file, d, stack, visited).entries ==>
      e in InlineAll(fs, root, file, ds, stack).entries
    decreases |ds|
  {
    hide InlineDirective;
    var n := |ds| - 1;
    var before := InlineAll(fs, root, file, ds[..n], stack);
    if d == ds[n] {
      visited := |before.visits|;
    } else {
      assert d in ds[..n];
      visited := DirectiveIsInlined(fs, root, file, ds[..n], stack, d);
    }
  }

  /** A section line of a file to which a chain of imports leads, under exactly these gates. */
  ghost predicate LineAtEnd(fs: FileSystem, root: string, from: string, gates: seq<Option<string>>, file: string,
                            key: string, values: seq<string>)
  {
    ImportTrail(fs, root, from, gates, file) && Section(key, values) in FileDirectives(fs, root, file)
  }

  ghost predicate IsEntryOf(entries: seq<Entry>, gates: seq<Option<string>>, file: string, key: string,
                            values: seq<string>)
  {
    exists e :: e in entries && e.key == key && e.values == values && e.file == file && e.gates == gates
  }

  /** Where parsing succeeds, every section line at the end of a chain of imports is in the
      inlined text, with exactly the gates of that chain. */
  lemma {:induction false} TrailIsInlined(fs: FileSystem, root: string, path: string, stack: seq<string>,
                                          gates: seq<Option<string>>, file: string, key: string, values: seq<string>)
    requires path in fs.canonical
    ensures var text := Inline(fs, root, path, stack);
      text.error.None? && LineAtEnd(fs, root, fs.canonical[path], gates, file, key, values) ==>
        IsEntryOf(text.entries, gates, file, key, values)
    decreases |gates|
  {
    hide FileDirectives, InlineAll;
    var from, text := fs.canonical[path], Inline(fs, root, path, stack);
    if text.error.None? && LineAtEnd(fs, root, from, gates, file, key, values) {
      var ds := FileDirectives(fs, root, from);
      if gates == [] {
        var visited := DirectiveIsInlined(fs, root, from, ds, stack + [from], Section(key, values));
        var e := Entry(key, values, from, 0, []);
        assert e in InlineDirective(fs, root, from, Section(key, values), stack + [from], visited).entries;
      } else {
        var d :| d in ds && d.Include? && d.gate == gates[0] && d.path in fs.canonical
                 && ImportTrail(fs, root, fs.canonical[d.path], gates[1..], file);
        var visited := DirectiveIsInlined(fs, root, from, ds, stack + [from], d);
        var inner := Inline(fs, root, d.path, stack + [from]);
        TrailIsInlined(fs, root, d.path, stack + [from], gates[1..], file, key, values);
        NestAt(inner.entries, d.gate, visited);
        var i :| 0 <= i < |inner.entries| && inner.entries[i].key == key && inner.entries[i].values == values
                 && inner.entries[i].file == file && inner.entries[i].gates == gates[1..];
        var e := NestOne(inner.entries[i], d.gate, visited);
        assert Nest(inner.entries, d.gate, visited)[i] == e && e.gates == gates;
        assert e in InlineDirective(fs, root, from, d, stack + [from], visited).entries;
      }
    }
  }

  // ---- One gate or all of them ----------------------------------------------------------------

  function EveryGateHolds(holds: string -> bool): Entry -> bool {
    (e: Entry) => AllHold(holds, e.gates)
  }

  function LastGateHolds(holds: string -> bool): Entry -> bool {
    (e: Entry) => ConditionHolds(holds, Innermost(None, e.gates))
  }

  /** A section's options from the lines whose gates all hold. */
  function StrictText(holds: string -> bool, entries: seq<Entry>, key: string, base: nat): seq<RcOption> {
    SectionText(Filter(EveryGateHolds(holds), entries), key, None, base)
  }

  lemma SectionTextSnoc(entries: seq<Entry>, e: Entry, key: string, base: nat)
    ensures SectionText(entries + [e], key, None, base) ==
            SectionText(entries, key, None, base) + if e.key == key then EntryOptions(e, None, base) else []
  {
    assert (entries + [e])[..|entries|] == entries;
  }

  lemma EntryFilters(holds: string -> bool, e: Entry, base: nat)
    ensures Filter(AppliesTo(holds), EntryOptions(e, None, base)) ==
      if LastGateHolds(holds)(e) then EntryOptions(e, None, base) else []
    ensures |EntryOptions(e, None, base)| == |e.values|
  {
    LineOptionsAt(e.key, e.values, base + e.visit, Innermost(None, e.gates));
    if LastGateHolds(holds)(e) {
      FilterAll(AppliesTo(holds), EntryOptions(e, None, base));
    } else {
      NoneFilter(AppliesTo(holds), EntryOptions(e, None, base));
    }
  }

  /** The version filter keeps the lines whose innermost gate holds. */
  lemma {:induction false} FilteredText(holds: string -> bool, entries: seq<Entry>, key: string, base: nat)
    ensures Filter(AppliesTo(holds), SectionText(entries, key, None, base)) ==
            SectionText(Filter(LastGateHolds(holds), entries), key, None, base)
  {
    hide EntryOptions, Filter, LastGateHolds, AppliesTo;
    if entries == [] {
      NoneFilter(AppliesTo(holds), []);
      NoneFilter(LastGateHolds(holds), []);
    } else {
      var front, e := entries[..|entries| - 1], entries[|entries| - 1];
      assert entries == front + [e];
      FilteredText(holds, front, key, base);
      FilterSnoc(LastGateHolds(holds), front, e);
      SectionTextSnoc(front, e, key, base);
      SectionTextSnoc(Filter(LastGateHolds(holds), front), e, key, base);
      EntryFilters(holds, e, base);
      if e.key == key {
        FilterConcat(AppliesTo(holds), SectionText(front, key, None, base), EntryOptions(e, None, base));
      }
      assert Filter(LastGateHolds(holds), front) + [] == Filter(LastGateHolds(holds), front);
      var kept := SectionText(Filter(LastGateHolds(holds), front), key, None, base);
      assert kept + [] == kept;
    }
  }

  /** Some line of the section has a failing gate behind a holding innermost one. */
  ghost predicate SomeLineHides(holds: string -> bool, entries: seq<Entry>, key: string) {
    exists e :: e in entries && e.key == key && e.values != [] && LastGateHolds(holds)(e) && !EveryGateHolds(holds)(e)
  }

  lemma SomeLineHidesSnoc(holds: string -> bool, entries: seq<Entry>, e: Entry, key: string)
    ensures SomeLineHides(holds, entries + [e], key) <==>
      SomeLineHides(holds, entries, key)
        || (e.key == key && e.values != [] && LastGateHolds(holds)(e) && !EveryGateHolds(holds)(e))
  {
    if SomeLineHides(holds, entries, key) {
      var x :| x in entries && x.key == key && x.values != [] && LastGateHolds(holds)(x) && !EveryGateHolds(holds)(x);
      assert x in entries + [e];
    }
    assert e in entries + [e];
  }

  lemma {:induction false} StrictTextIsSubsequence(holds: string -> bool, entries: seq<Entry>, key: string, base: nat)
    ensures var strict, kept :=
      StrictText(holds, entries, key, base), SectionText(Filter(LastGateHolds(holds), entries), key, None, base);
      && IsSubsequence(strict, kept) && |strict| <= |kept|
      && (SomeLineHides(holds, entries, key) ==> |strict| < |kept|)
      && (!SomeLineHides(holds, entries, key) ==> strict == kept)
  {
    hide EntryOptions, Filter, LastGateHolds, EveryGateHolds, SomeLineHides, IsSubsequence, SectionText;
    if entries == [] {
      NothingHidden(holds, key, base);
    } else {
      var front, e := entries[..|entries| - 1], entries[|entries| - 1];
      var p, q := EveryGateHolds(holds), LastGateHolds(holds);
      assert entries == front + [e];
      StrictTextIsSubsequence(holds, front, key, base);
      SomeLineHidesSnoc(holds, front, e, key);
      FilterSnoc(p, front, e);
      FilterSnoc(q, front, e);
      SectionTextSnoc(Filter(p, front), e, key, base);
      SectionTextSnoc(Filter(q, front), e, key, base);
      StrictLine(holds, e);
      EntryFilters(holds, e, base);
      var added := if e.key == key then EntryOptions(e, None, base) else [];
      var before, kept := StrictText(holds, front, key, base), SectionText(Filter(q, front), key, None, base);
      assert Filter(p, front) + [] == Filter(p, front) && Filter(q, front) + [] == Filter(q, front);
      GrowsAlike(before, kept, if p(e) then added else [], if q(e) then added else []);
      assert before + [] == before && kept + [] == kept;
      assert |added| == 0 ==> added == [];
    }
  }

  lemma NothingHidden(holds: string -> bool, key: string, base: nat)
    ensures StrictText(holds, [], key, base) == []
      && SectionText(Filter(LastGateHolds(holds), []), key, None, base) == []
    ensures !SomeLineHides(holds, [], key) && IsSubsequence<RcOption>([], [])
  {
  }

  lemma StrictLine(holds: string -> bool, e: Entry)
    ensures EveryGateHolds(holds)(e) ==> LastGateHolds(holds)(e)
  {
    if AllHold(holds, e.gates) {
      AllHoldImpliesInnermost(holds, None, e.gates);
    }
  }

  lemma GrowsAlike<T>(a: seq<T>, b: seq<T>, c: seq<T>, d: seq<T>)
    requires IsSubsequence(a, b) && (c == d || c == [])
    ensures IsSubsequence(a + c, b + d)
  {
    if c == d {
      SubsequenceOfItself(c);
    }
    SubsequenceConcat(a, b, c, d);
  }

  lemma {:induction false} SubsequenceOfItself<T>(s: seq<T>)
    ensures IsSubsequence(s, s)
  {
    if s != [] {
      SubsequenceOfItself(s[1..]);
    }
  }

  /** Some chain of imports with a holding innermost gate over a failing one leads to a line
      of the section. */
  ghost predicate HidesFailingImport(fs: FileSystem, root: string, from: string, key: string, holds: string -> bool) {
    exists gates, file, values ::
      && ImportTrail(fs, root, from, gates, file) && Section(key, values) in FileDirectives(fs, root, file)
      && values != []
      && ConditionHolds(holds, Innermost(None, gates)) && !AllHold(holds, gates)
  }

  lemma LinesHideWhatTrailsHide(fs: FileSystem, root: string, path: string, key: string, holds: string -> bool)
    requires path in fs.canonical && Inline(fs, root, path, []).error.None?
    ensures SomeLineHides(holds, Inline(fs, root, path, []).entries, key) <==>
      HidesFailingImport(fs, root, fs.canonical[path], key, holds)
  {
    hide Inline, FileDirectives;
    var text := Inline(fs, root, path, []);
    if SomeLineHides(holds, text.entries, key) {
      var e :| e in text.entries && e.key == key && e.values != [] && LastGateHolds(holds)(e)
        && !EveryGateHolds(holds)(e);
      InlinedTextIsTraced(fs, root, path, []);
      assert Traced(fs, root, fs.canonical[path], e, text.visits);
    }
    if HidesFailingImport(fs, root, fs.canonical[path], key, holds) {
      var gates, file, values :|
        && ImportTrail(fs, root, fs.canonical[path], gates, file)
        && Section(key, values) in FileDirectives(fs, root, file) && values != []
        && ConditionHolds(holds, Innermost(None, gates)) && !AllHold(holds, gates);
      TrailIsInlined(fs, root, path, [], gates, file, key, values);
      var e :| e in text.entries && e.key == key && e.values == values && e.file == file && e.gates == gates;
      assert LastGateHolds(holds)(e) && !EveryGateHolds(holds)(e);
    }
  }

  /** For a file that parses and every section: the options from lines all of whose import
      gates hold are a subsequence of the section's options whose own condition holds, and
      are all of them exactly when no chain of imports has a holding innermost gate over a
      failing one. */
  lemma ImportGatesKeepSubsequence(fs: FileSystem, root: string, path: string, key: string, holds: string -> bool,
                                   base: nat)
    requires path in fs.canonical && Inline(fs, root, path, []).error.None?
    ensures var entries := Inline(fs, root, path, []).entries;
      var strict, kept :=
        StrictText(holds, entries, key, base), Filter(AppliesTo(holds), SectionText(entries, key, None, base));
      IsSubsequence(strict, kept) && (strict == kept <==> !HidesFailingImport(fs, root, fs.canonical[path], key, holds))
  {
    hide Inline, StrictText, SectionText, Filter, SomeLineHides, HidesFailingImport, IsSubsequence;
    var entries := Inline(fs, root, path, []).entries;
    FilteredText(holds, entries, key, base);
    StrictTextIsSubsequence(holds, entries, key, base);
    LinesHideWhatTrailsHide(fs, root, path, key, holds);
  }

  // ---- The gates behind a source ----------------------------------------------------------------

  function Prefixed(gate: Option<string>, trails: Trails): (r: Trails)
    ensures |r| == |trails| && forall v :: 0 <= v < |trails| ==> r[v] == [gate] + trails[v]
  {
    if trails == [] then [] else Prefixed(gate, trails[..|trails| - 1]) + [[gate] + trails[|trails| - 1]]
  }

  /** Each visit to a file has one trail of imports, and all lines read in it carry its gates. */
  ghost predicate TrailsFit(fs: FileSystem, root: string, from: string, trails: Trails, entries: seq<Entry>,
                            visits: seq<string>)
  {
    && |trails| == |visits|
    && (forall v :: 0 <= v < |visits| ==> ImportTrail(fs, root, from, trails[v], visits[v]))
    && forall e :: e in entries ==> e.visit < |trails| && e.gates == trails[e.visit]
  }

  lemma {:induction false} VisitTrails(fs: FileSystem, root: string, path: string, stack: seq<string>)
      returns (trails: Trails)
    requires path in fs.canonical
    ensures TrailsFit(fs, root, fs.canonical[path], trails, Inline(fs, root, path, stack).entries,
      Inline(fs, root, path, stack).visits)
    ensures trails != [] ==> trails[0] == []
    decreases fs.canonical.Values - Elements(stack), 1, 0
  {
    var file := fs.canonical[path];
    if file in stack {
      trails := [];
    } else if file !in fs.contents {
      trails := [[]];
    } else {
      assert file in fs.canonical.Values - Elements(stack);
      assert file !in fs.canonical.Values - Elements(stack + [file]);
      trails := LineTrails(fs, root, file, FileDirectives(fs, root, file), stack + [file]);
    }
  }

  lemma {:induction false} LineTrails(fs: FileSystem, root: string, file: string, ds: seq<Directive>,
                                      stack: seq<string>)
      returns (trails: Trails)
    requires forall d :: d in ds ==> d in FileDirectives(fs, root, file)
    ensures TrailsFit(fs, root, file, trails, InlineAll(fs, root, file, ds, stack).entries,
      InlineAll(fs, root, file, ds, stack).visits)
    ensures trails != [] && trails[0] == []
    decreases fs.canonical.Values - Elements(stack), 2, |ds|
  {
    hide FileDirectives;
    if ds == [] {
      trails := [[]];
    } else {
      var n := |ds| - 1;
      var d, before := ds[n], InlineAll(fs, root, file, ds[..n], stack);
      trails := LineTrails(fs, root, file, ds[..n], stack);
      if before.error.None? {
        if d.Include? && d.path in fs.canonical {
          var inner := VisitTrails(fs, root, d.path, stack);
          var text := Inline(fs, root, d.path, stack);
          assert d in FileDirectives(fs, root, file);
          ImportedTrails(fs, root, file, d, inner, text.entries, text.visits, trails, before.entries, before.visits);
          trails := trails + Prefixed(d.gate, inner);
        } else if d.Section? {
          SectionTrails(fs, root, file, trails, before.entries, before.visits, Entry(d.key, d.values, file, 0, []));
          assert before.visits + [] == before.visits;
        } else {
          assert before.visits + [] == before.visits && before.entries + [] == before.entries;
        }
      }
    }
  }

  lemma SectionTrails(fs: FileSystem, root: string, file: string, trails: Trails, entries: seq<Entry>,
                      visits: seq<string>, e: Entry)
    requires TrailsFit(fs, root, file, trails, entries, visits) && trails != [] && trails[0] == [] && e.visit == 0
      && e.gates == []
    ensures TrailsFit(fs, root, file, trails, entries + [e], visits)
  {
  }

  lemma ImportedTrails(fs: FileSystem, root: string, file: string, d: Directive,
                       inner: Trails, innerEntries: seq<Entry>, innerVisits: seq<string>,
                       trails: Trails, entries: seq<Entry>, visits: seq<string>)
    requires d.Include? && d.path in fs.canonical
    ensures (d in FileDirectives(fs, root, file)
             && TrailsFit(fs, root, fs.canonical[d.path], inner, innerEntries, innerVisits)
             && TrailsFit(fs, root, file, trails, entries, visits)) ==>
      TrailsFit(fs, root, file, trails + Prefixed(d.gate, inner), entries + Nest(innerEntries, d.gate, |visits|),
        visits + innerVisits)
  {
    hide FileDirectives, ImportTrail, Nest, Prefixed;
    var all := trails + Prefixed(d.gate, inner);
    if d in FileDirectives(fs, root, file)
       && TrailsFit(fs, root, fs.canonical[d.path], inner, innerEntries, innerVisits)
       && TrailsFit(fs, root, file, trails, entries, visits)
    {
      forall v | 0 <= v < |visits + innerVisits|
        ensures ImportTrail(fs, root, file, all[v], (visits + innerVisits)[v])
      {
        if v >= |visits| {
          TrailGrows(fs, root, file, d, inner[v - |visits|], innerVisits[v - |visits|]);
        }
      }
      forall e | e in Nest(innerEntries, d.gate, |visits|) ensures e.visit < |all| && e.gates == all[e.visit] {
        NestedEntryFits(innerEntries, inner, d.gate, |visits|, e);
      }
    }
  }

  lemma TrailGrows(fs: FileSystem, root: string, file: string, d: Directive, gates: seq<Option<string>>, to: string)
    requires d.Include? && d.path in fs.canonical
    ensures d in FileDirectives(fs, root, file) && ImportTrail(fs, root, fs.canonical[d.path], gates, to) ==>
      ImportTrail(fs, root, file, [d.gate] + gates, to)
  {
    hide FileDirectives;
    assert ([d.gate] + gates)[1..] == gates;
  }

  lemma NestedEntryFits(entries: seq<Entry>, trails: Trails, gate: Option<string>, offset: nat, e: Entry)
    requires forall inner :: inner in entries ==> inner.visit < |trails| && inner.gates == trails[inner.visit]
    requires e in Nest(entries, gate, offset)
    ensures offset <= e.visit < offset + |trails| && e.gates == [gate] + trails[e.visit - offset]
  {
    hide Nest;
    NestAt(entries, gate, offset);
    var i :| 0 <= i < |entries| && e == NestOne(entries[i], gate, offset);
    assert entries[i] in entries;
  }

  // ---- An outer gate is forgotten -----------------------------------------------------------------

  const GATED := "try-import-if-bazel-version"

  function OneLineFile(row: seq<string>): string
    requires row != []
  {
    RoundTrip.PrintFile([row])
  }

  /** A file that imports a file that imports a file, each import under a gate. */
  function NestedImports(outer: string, inner: string): FileSystem {
    FileSystem(
      map["top" := "top", "mid" := "mid", "leaf" := "leaf"],
      map["top" := OneLineFile([GATED, outer, "mid"]),
          "mid" := OneLineFile([GATED, inner, "leaf"]),
          "leaf" := OneLineFile(["build", "--x"])])
  }

  lemma OneDirective(row: seq<string>, root: string, d: Directive)
    requires row != [] && forall i :: 0 <= i < |row| ==> '\n' !in row[i]
    requires forall line :: Tokenizes(line, row) ==> ReadDirective(line, root) == d
    ensures Directives(P.Process(OneLineFile(row)), root) == [d]
  {
    RoundTrip.PrintThenRead([row]);
    var lines := P.Process(OneLineFile(row));
    assert RoundTrip.ReadLines(lines) == [row];
    assert |lines| == 1 && Tokenizes(lines[0], row);
    assert Directives(lines, root)[0] == d;
  }

  predicate Tokenizes(line: string, row: seq<string>) {
    Tokenizer.Tokens(line) == row
  }

  lemma GatedDirective(line: string, gate: string, path: string, root: string)
    requires Tokenizes(line, [GATED, gate, path]) && !(WORKSPACE <= path)
    ensures ReadDirective(line, root) == Include(path, false, Some(gate))
  {
  }

  lemma SectionDirective(line: string, root: string)
    requires Tokenizes(line, ["build", "--x"])
    ensures ReadDirective(line, root) == Section("build", ["--x"])
  {
    assert ["build", "--x"][1..] == ["--x"];
  }

  lemma NestedDirectives(outer: string, inner: string, root: string)
    requires '\n' !in outer && '\n' !in inner
    ensures var fs := NestedImports(outer, inner);
      && FileDirectives(fs, root, "top") == [Include("mid", false, Some(outer))]
      && FileDirectives(fs, root, "mid") == [Include("leaf", false, Some(inner))]
      && FileDirectives(fs, root, "leaf") == [Section("build", ["--x"])]
  {
    hide ReadDirective, P.Process, OneLineFile;
    forall line | Tokenizes(line, [GATED, outer, "mid"])
      ensures ReadDirective(line, root) == Include("mid", false, Some(outer))
    {
      GatedDirective(line, outer, "mid", root);
    }
    forall line | Tokenizes(line, [GATED, inner, "leaf"])
      ensures ReadDirective(line, root) == Include("leaf", false, Some(inner))
    {
      GatedDirective(line, inner, "leaf", root);
    }
    forall line | Tokenizes(line, ["build", "--x"]) ensures ReadDirective(line, root) == Section("build", ["--x"]) {
      SectionDirective(line, root);
    }
    OneDirective([GATED, outer, "mid"], root, Include("mid", false, Some(outer)));
    OneDirective([GATED, inner, "leaf"], root, Include("leaf", false, Some(inner)));
    OneDirective(["build", "--x"], root, Section("build", ["--x"]));
  }

  /** Inlining a file of one directive. */
  lemma InlineOne(fs: FileSystem, root: string, path: string, d: Directive, stack: seq<string>)
    requires path in fs.canonical && fs.canonical[path] == path && path in fs.contents && path !in stack
    requires FileDirectives(fs, root, path) == [d]
    ensures var next := InlineDirective(fs, root, path, d, stack + [path], 1);
      Inline(fs, root, path, stack) == Inlined(next.entries, [path] + next.visits, next.error)
  {
    hide FileDirectives, InlineDirective;
    assert [d][..0] == [] && InlineAll(fs, root, path, [], stack + [path]) == Inlined([], [path], None);
  }

  lemma LeafText(fs: FileSystem, root: string, stack: seq<string>)
    requires "leaf" in fs.canonical && fs.canonical["leaf"] == "leaf" && "leaf" in fs.contents && "leaf" !in stack
    requires FileDirectives(fs, root, "leaf") == [Section("build", ["--x"])]
    ensures Inline(fs, root, "leaf", stack) == Inlined([Entry("build", ["--x"], "leaf", 0, [])], ["leaf"], None)
  {
    hide FileDirectives, Inline;
    InlineOne(fs, root, "leaf", Section("build", ["--x"]), stack);
  }

  /** A file that only imports one more entry under a gate. */
  lemma ImporterText(fs: FileSystem, root: string, path: string, target: string, gate: Option<string>,
                     stack: seq<string>, e: Entry, visits: seq<string>)
    requires path in fs.canonical && fs.canonical[path] == path && path in fs.contents && path !in stack
      && target in fs.canonical
    requires FileDirectives(fs, root, path) == [Include(target, false, gate)]
    requires Inline(fs, root, target, stack + [path]) == Inlined([e], visits, None)
    ensures Inline(fs, root, path, stack) == Inlined([NestOne(e, gate, 1)], [path] + visits, None)
  {
    hide FileDirectives, Inline;
    InlineOne(fs, root, path, Include(target, false, gate), stack);
    NestedOnce(e, gate);
  }

  lemma NestedText(outer: string, inner: string, root: string)
    requires '\n' !in outer && '\n' !in inner
    ensures Inline(NestedImports(outer, inner), root, "top", []).error.None?
    ensures Inline(NestedImports(outer, inner), root, "top", []).entries ==
            [NestOne(NestOne(Entry("build", ["--x"], "leaf", 0, []), Some(inner), 1), Some(outer), 1)]
  {
    hide FileDirectives, Inline, NestOne, OneLineFile;
    var fs, e := NestedImports(outer, inner), Entry("build", ["--x"], "leaf", 0, []);
    NestedDirectives(outer, inner, root);
    LeafText(fs, root, [] + ["top"] + ["mid"]);
    ImporterText(fs, root, "mid", "leaf", Some(inner), [] + ["top"], e, ["leaf"]);
    ImporterText(fs, root, "top", "mid", Some(outer), [], NestOne(e, Some(inner), 1), ["mid"] + ["leaf"]);
  }

  lemma NestedOnce(e: Entry, gate: Option<string>)
    ensures Nest([e], gate, 1) == [NestOne(e, gate, 1)]
  {
    assert [e][..0] == [];
  }

  lemma TwoGates(outer: string, inner: string, holds: string -> bool)
    requires !holds(outer) && holds(inner)
    ensures var gates := [Some(outer)] + ([Some(inner)] + []);
      Innermost(None, gates) == Some(inner) && !AllHold(holds, gates)
  {
    var gates := [Some(outer)] + ([Some(inner)] + []);
    InnermostStep(None, Some(outer), [Some(inner)] + []);
    InnermostStep(Some(outer), Some(inner), []);
    assert gates[0] == Some(outer);
  }

  lemma OneEntryText(e: Entry, base: nat)
    ensures SectionText([e], e.key, None, base) == EntryOptions(e, None, base)
  {
    hide EntryOptions;
    assert [e] == [] + [e];
    SectionTextSnoc([], e, e.key, base);
  }

  /** Under nested gates the outer one is forgotten: an option is kept although it fails. */
  lemma NestedImportForgetsOuterGate(outer: string, inner: string, root: string, holds: string -> bool)
    requires '\n' !in outer && '\n' !in inner && !holds(outer) && holds(inner)
    ensures Inline(NestedImports(outer, inner), root, "top", []).error.None?
    ensures var entries := Inline(NestedImports(outer, inner), root, "top", []).entries;
      && Filter(AppliesTo(holds), SectionText(entries, "build", None, 0)) == [RcOption("--x", "build", 2, Some(inner))]
      && StrictText(holds, entries, "build", 0) == []
  {
    hide Inline, LineOptions, Innermost, SectionText, AppliesTo, NestedImports;
    NestedText(outer, inner, root);
    TwoGates(outer, inner, holds);
    var e := NestOne(NestOne(Entry("build", ["--x"], "leaf", 0, []), Some(inner), 1), Some(outer), 1);
    OneEntryText(e, 0);
    EntryFilters(holds, e, 0);
    LineOptionsAt("build", ["--x"], 2, Some(inner));
    assert EntryOptions(e, None, 0) == [RcOption("--x", "build", 2, Some(inner))];
    NoneFilter(EveryGateHolds(holds), [e]);
    NothingHidden(holds, "build", 0);
  }
}
