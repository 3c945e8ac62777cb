/** All the gates behind a command's options, those of nested imports and of nested configs
    alike, against the single condition that the version filter looks at. */
module RunGates {
  import opened Prelude
  import opened Rc
  import opened RunCommands
  import E = Expander
  import ET = ExpanderTheory
  import IG = ImportGates
  import PT = ParserTheory
  import Parser
  import RT = RunTheory

  // ---- The version filter ------------------------------------------------------------------

  function HoldsAt(semver: Semver, version: Option<string>): string -> bool {
    (condition: string) => semver.admits(condition, version)
  }

  /** Version filtering fails exactly on an unreadable gate, and else keeps the options whose
      own condition holds. */
  lemma {:induction false} AdmitIsFilter(semver: Semver, version: Option<string>, opts: seq<RcOption>)
    ensures var out := Admit(semver, version, opts);
      var admitted := (o: RcOption) => o.condition.None? || semver.admits(o.condition.value, version);
      && (out.Applies? <==> forall o :: o in opts && o.condition.Some? ==> semver.parses(o.condition.value))
      && (out.Applies? ==> out.options == Filter(admitted, opts) == Filter(AppliesTo(HoldsAt(semver, version)), opts))
  {
    hide Filter;
    var admitted := (o: RcOption) => o.condition.None? || semver.admits(o.condition.value, version);
    FiltersAgree(AppliesTo(HoldsAt(semver, version)), admitted, opts);
    if opts == [] {
      NoneFilter(AppliesTo(HoldsAt(semver, version)), []);
    } else {
      var n := |opts| - 1;
      AdmitIsFilter(semver, version, opts[..n]);
      assert opts == opts[..n] + [opts[n]];
      FilterSnoc(AppliesTo(HoldsAt(semver, version)), opts[..n], opts[n]);
    }
  }

  // ---- Every gate or the innermost ------------------------------------------------------------

  ghost predicate InBuckets(options: Options, o: RcOption) {
    exists key :: o in RawOptions(options, key)
  }

  /** The trail explains every option there is, and the flag that the platform switch adds. */
  ghost predicate ExplainsBuckets(trail: ET.Trail, options: Options, platform: string) {
    && ET.Explains(trail, E.PlatformFlag(platform))
    && forall key, o :: o in RawOptions(options, key) ==> ET.Explains(trail, o)
  }

  lemma {:induction false} GatheredInBuckets(options: Options, prefixes: seq<string>, name: string, o: RcOption)
    requires o in E.GatherSections(options, prefixes, name)
    ensures InBuckets(options, o)
  {
    var n := |prefixes| - 1;
    if o !in RawOptions(options, prefixes[n] + ":" + name) {
      GatheredInBuckets(options, prefixes[..n], name, o);
    }
  }

  lemma {:induction false} NamedInBuckets(options: Options, keys: seq<string>, o: RcOption)
    requires o in Flatten(NamedSections(options, keys))
    ensures InBuckets(options, o)
  {
    hide RawOptions;
    if keys != [] && o !in RawOptions(options, keys[0]) {
      assert NamedSections(options, keys)[1..] == NamedSections(options, keys[1..]);
      NamedInBuckets(options, keys[1..], o);
    }
  }

  lemma LookupInBuckets(rc: BazelRC, command: string, o: RcOption)
    requires o in OptionsFor(rc, command)
    ensures InBuckets(rc.options, o)
  {
    hide RawOptions, NamedSections, OptionsFor, CommandAncestors;
    var keys := ["common"] + CommandAncestors(command) + [command];
    RT.LookupEndsInCommandLine(rc, command);
    FlattenConcat([FileFlags(rc)], NamedSections(rc.options, keys));
    assert Flatten([FileFlags(rc)]) == FileFlags(rc) by {
      FlattenSnoc([], FileFlags(rc));
      assert [] + [FileFlags(rc)] == [FileFlags(rc)];
    }
    if o !in RawOptions(rc.options, "always") {
      NamedInBuckets(rc.options, keys, o);
    }
  }

  lemma {:induction false} ReachedIsExplained(s: E.Setting, args: seq<RcOption>, trail: ET.Trail, k: E.Kept)
    requires forall o :: o in args ==> ET.Explains(trail, o)
    requires forall key, o :: o in RawOptions(s.options, key) ==> ET.Explains(trail, o)
    requires ET.Reached(s, args, k)
    ensures ET.ExplainsWay(trail, k)
    decreases |k.way|
  {
    hide ET.Explains, E.Body, RawOptions;
    if k.way != [] {
      var body, rest := E.Body(s, E.ConfigName(k.way[0])), E.Kept(k.way[1..], k.option);
      forall o | o in body ensures ET.Explains(trail, o) {
        BodyInBuckets(s, E.ConfigName(k.way[0]), o);
      }
      ReachedIsExplained(s, body, trail, rest);
      assert k.way == [k.way[0]] + rest.way;
    }
  }

  lemma BodyInBuckets(s: E.Setting, name: string, o: RcOption)
    requires o in E.Body(s, name)
    ensures InBuckets(s.options, o)
  {
    GatheredInBuckets(s.options, E.Prefixes(s.command), name, o);
  }

  lemma ArgumentsAreExplained(rc: BazelRC, command: string, platform: string, trail: ET.Trail)
    requires ExplainsBuckets(trail, rc.options, platform)
    ensures var base := OptionsFor(rc, command);
      ET.ExplainsAll(E.CommandSetting(rc.options, command, rc.skip, platform, base), E.CommandArgs(base, platform),
        trail)
  {
    hide OptionsFor, ET.Explains, ET.Reached, ET.ExplainsWay, RawOptions, E.HasPlatformSwitch, E.PlatformFlag;
    var base := OptionsFor(rc, command);
    var s, args := E.CommandSetting(rc.options, command, rc.skip, platform, base), E.CommandArgs(base, platform);
    forall o | o in args ensures ET.Explains(trail, o) {
      if o in base {
        LookupInBuckets(rc, command, o);
      }
    }
    forall k | ET.Reached(s, args, k) ensures ET.ExplainsWay(trail, k) {
      ReachedIsExplained(s, args, trail, k);
    }
  }

  /** For every command and version that resolves: the options all of whose gates hold,
      those of the imports and configs that led to them or to a flag on their way, are a
      subsequence of the options that apply, and are all of them exactly when no chain of
      configs leads to an option with a failing gate hidden behind a holding one. */
  lemma ApplicableContainsStrict(rc: BazelRC, command: string, platform: string, semver: Semver,
                                 version: Option<string>, trail: ET.Trail)
    requires ApplicableOptions(rc, command, platform, semver, version).Applies?
    requires ExplainsBuckets(trail, rc.options, platform)
    ensures var holds, base := HoldsAt(semver, version), OptionsFor(rc, command);
      var s, args := E.CommandSetting(rc.options, command, rc.skip, platform, base), E.CommandArgs(base, platform);
      var strict := E.Results(Filter(ET.AllGatesHold(holds, trail), E.Expand(s, args, []).kept));
      var opts := ApplicableOptions(rc, command, platform, semver, version).options;
      IsSubsequence(strict, opts) && (strict == opts <==> !ET.HidesFailingGate(s, args, holds, trail))
  {
    hide OptionsFor, Admit, Filter, IsSubsequence, E.Expand, E.Results, ET.HidesFailingGate, ET.ExplainsAll,
      E.HasPlatformSwitch, ExplainsBuckets;
    var base := OptionsFor(rc, command);
    var s, args := E.CommandSetting(rc.options, command, rc.skip, platform, base), E.CommandArgs(base, platform);
    AdmitIsFilter(semver, version, E.Results(E.Expand(s, args, []).kept));
    ArgumentsAreExplained(rc, command, platform, trail);
    ET.StrictGatesKeepSubsequence(s, args, HoldsAt(semver, version), trail);
  }

  // ---- Trails of what is loaded -------------------------------------------------------------------

  /** The trails of a file's visits: real chains of imports from it, one per visit, that give
      each line read the gates it was read under. They stand where its sources do. */
  ghost predicate TrailsOfFile(fs: Parser.FileSystem, root: string, files: seq<string>, n: nat, trails: IG.Trails)
    requires n < |files|
  {
    var before, text := LoadFiles(fs, root, files[..n]), Parser.Inline(fs, root, files[n], []);
    var start, end := |before.sources|, |before.sources| + |text.visits|;
    before.error.None? && files[n] in fs.canonical ==>
      && end <= |trails| && (start < end ==> trails[start] == [])
      && IG.TrailsFit(fs, root, fs.canonical[files[n]], trails[start..end], text.entries, text.visits)
  }

  /** One trail per source, and for every file that is read those of its visits. */
  ghost predicate TrailsOfFiles(fs: Parser.FileSystem, root: string, files: seq<string>, trails: IG.Trails) {
    && |trails| == |LoadFiles(fs, root, files).sources|
    && forall n :: 0 <= n < |files| ==> TrailsOfFile(fs, root, files, n, trails)
  }

  /** Whether a file's trails are there depends only on the files up to it. */
  lemma SameTrailsOfFile(fs: Parser.FileSystem, root: string, files: seq<string>, n: nat, trails: IG.Trails,
                         files': seq<string>, trails': IG.Trails)
    requires n < |files| && n < |files'| && files[..n + 1] == files'[..n + 1]
    requires var text := Parser.Inline(fs, root, files[n], []);
      var end := |LoadFiles(fs, root, files[..n]).sources| + |text.visits|;
      end <= |trails| && end <= |trails'| && trails[..end] == trails'[..end]
    ensures TrailsOfFile(fs, root, files, n, trails) <==> TrailsOfFile(fs, root, files', n, trails')
  {
    hide LoadFiles, Parser.Inline, IG.TrailsFit;
    assert files[..n] == files[..n + 1][..n] == files'[..n];
    assert files[n] == files[..n + 1][n] == files'[n];
    var start, visits := |LoadFiles(fs, root, files[..n]).sources|, Parser.Inline(fs, root, files[n], []).visits;
    var end := start + |visits|;
    assert trails[start..end] == trails[..end][start..] == trails'[start..end];
    assert start < end ==> trails[start] == trails[..end][start] == trails'[start];
  }

  lemma NothingInlined(fs: Parser.FileSystem, root: string, path: string)
    requires path !in fs.canonical
    ensures Parser.Inline(fs, root, path, []).entries == [] && Parser.Inline(fs, root, path, []).visits == []
  {
  }

  /** What loading one more file adds. */
  lemma OneMoreFile(fs: Parser.FileSystem, root: string, files: seq<string>)
    requires files != []
    ensures var before, all := LoadFiles(fs, root, files[..|files| - 1]), LoadFiles(fs, root, files);
      var text := Parser.Inline(fs, root, files[|files| - 1], []);
      && (before.error.Some? ==> all == before)
      && (before.error.None? ==>
        && all.sources == before.sources + text.visits
        && all.options == Parser.Absorb(before.options, text.entries, None, |before.sources|))
  {
  }

  /** Sources are only added. */
  lemma {:induction false} SourcesGrow(fs: Parser.FileSystem, root: string, files: seq<string>, n: nat)
    requires n < |files| && LoadFiles(fs, root, files[..n]).error.None?
    ensures |LoadFiles(fs, root, files[..n]).sources| + |Parser.Inline(fs, root, files[n], []).visits|
         <= |LoadFiles(fs, root, files).sources|
    decreases |files|
  {
    hide LoadFiles, Parser.Inline, Parser.Absorb;
    var last := |files| - 1;
    OneMoreFile(fs, root, files);
    if n < last {
      assert files[..last][..n] == files[..n];
      SourcesGrow(fs, root, files[..last], n);
    }
  }

  lemma EarlierTrails(fs: Parser.FileSystem, root: string, files: seq<string>, trails: IG.Trails)
    requires files != [] && |LoadFiles(fs, root, files[..|files| - 1]).sources| <= |trails|
    ensures var before := LoadFiles(fs, root, files[..|files| - 1]);
      TrailsOfFiles(fs, root, files[..|files| - 1], trails[..|before.sources|]) <==>
      forall n :: 0 <= n < |files| - 1 ==> TrailsOfFile(fs, root, files, n, trails)
  {
    hide LoadFiles, Parser.Inline, TrailsOfFile;
    var front := files[..|files| - 1];
    var first := trails[..|LoadFiles(fs, root, front).sources|];
    forall n | 0 <= n < |front|
      ensures TrailsOfFile(fs, root, front, n, first) <==> TrailsOfFile(fs, root, files, n, trails)
    {
      assert front[..n] == files[..n];
      if LoadFiles(fs, root, files[..n]).error.None? {
        SourcesGrow(fs, root, front, n);
        SameTrailsOfFile(fs, root, front, n, first, files, trails);
      } else {
        FileNotRead(fs, root, front, n, first);
        FileNotRead(fs, root, files, n, trails);
      }
    }
  }

  lemma FileNotRead(fs: Parser.FileSystem, root: string, files: seq<string>, n: nat, trails: IG.Trails)
    requires n < |files| && LoadFiles(fs, root, files[..n]).error.Some?
    ensures TrailsOfFile(fs, root, files, n, trails)
  {
  }

  lemma {:induction false} FileTrails(fs: Parser.FileSystem, root: string, files: seq<string>)
      returns (trails: IG.Trails)
    ensures TrailsOfFiles(fs, root, files, trails)
  {
    hide LoadFiles, Parser.Inline, Parser.Absorb, TrailsOfFile;
    trails := [];
    if files == [] {
      NoFiles(fs, root);
    } else {
      var n := |files| - 1;
      var before := LoadFiles(fs, root, files[..n]);
      var first := FileTrails(fs, root, files[..n]);
      var more: IG.Trails := [];
      OneMoreFile(fs, root, files);
      if before.error.None? {
        if files[n] in fs.canonical {
          more := IG.VisitTrails(fs, root, files[n], []);
        } else {
          NothingInlined(fs, root, files[n]);
        }
      }
      trails := first + more;
      assert trails[..|before.sources|] == first;
      EarlierTrails(fs, root, files, trails);
      NextFileTrails(fs, root, files, first, more);
    }
  }

  lemma NoFiles(fs: Parser.FileSystem, root: string)
    ensures LoadFiles(fs, root, []) == Loaded(map[], [], None)
  {
  }

  lemma NextFileTrails(fs: Parser.FileSystem, root: string, files: seq<string>, first: IG.Trails, more: IG.Trails)
    requires files != [] && |first| == |LoadFiles(fs, root, files[..|files| - 1]).sources|
    requires var path := files[|files| - 1];
      LoadFiles(fs, root, files[..|files| - 1]).error.None? && path in fs.canonical ==>
        var text := Parser.Inline(fs, root, path, []);
        IG.TrailsFit(fs, root, fs.canonical[path], more, text.entries, text.visits) && (more != [] ==> more[0] == [])
    ensures TrailsOfFile(fs, root, files, |files| - 1, first + more)
  {
    hide LoadFiles, Parser.Inline;
    assert (first + more)[|first|..|first| + |more|] == more;
    if more != [] {
      assert (first + more)[|first|] == more[0];
    }
  }

  lemma {:induction false} AbsorbedOption(options: Options, entries: seq<Parser.Entry>, base: nat, key: string,
                                          o: RcOption)
    requires o in RawOptions(Parser.Absorb(options, entries, None, base), key)
    ensures o in RawOptions(options, key) || exists e :: e in entries && FromEntry(e, base, o)
  {
    hide Innermost, FromEntry;
    if entries != [] {
      var front, e := entries[..|entries| - 1], entries[|entries| - 1];
      assert entries == front + [e];
      if o in RawOptions(Parser.Absorb(options, front, None, base), key) {
        AbsorbedOption(options, front, base, key, o);
      } else {
        EntryGives(e, base, o);
      }
    }
  }

  predicate FromEntry(e: Parser.Entry, base: nat, o: RcOption) {
    o.sourceIndex == base + e.visit && o.condition == Innermost(None, e.gates)
  }

  lemma EntryGives(e: Parser.Entry, base: nat, o: RcOption)
    requires o in Parser.EntryOptions(e, None, base)
    ensures FromEntry(e, base, o)
  {
    PT.LineOptionsAt(e.key, e.values, base + e.visit, Innermost(None, e.gates));
  }

  /** Every line read stands under exactly the gates of the trail of its own visit. */
  lemma LineGatesAreTheTrail(fs: Parser.FileSystem, root: string, files: seq<string>, trails: IG.Trails, n: nat,
                             e: Parser.Entry)
    requires TrailsOfFiles(fs, root, files, trails) && n < |files|
    requires LoadFiles(fs, root, files[..n]).error.None? && e in Parser.Inline(fs, root, files[n], []).entries
    ensures var source := |LoadFiles(fs, root, files[..n]).sources| + e.visit;
      && source < |trails| && trails[source] == e.gates
      && PT.ImportTrail(fs, root, fs.canonical[files[n]], e.gates, e.file)
  {
    hide LoadFiles, Parser.Inline, PT.ImportTrail;
    assert TrailsOfFile(fs, root, files, n, trails);
    var base, text := |LoadFiles(fs, root, files[..n]).sources|, Parser.Inline(fs, root, files[n], []);
    if files[n] !in fs.canonical {
      NothingInlined(fs, root, files[n]);
    }
    assert trails[base..base + |text.visits|][e.visit] == trails[base + e.visit];
    PT.InlinedTextIsTraced(fs, root, files[n], []);
    assert PT.Traced(fs, root, fs.canonical[files[n]], e, text.visits);
  }

  /** The trails account for the options: each has the innermost gate of its source's trail
      as its condition. Where loading starts there is no gate. */
  ghost predicate AccountsFor(trails: IG.Trails, options: Options) {
    && (trails != [] ==> trails[0] == [])
    && forall key, o :: o in RawOptions(options, key) ==>
      o.sourceIndex < |trails| && Innermost(None, trails[o.sourceIndex]) == o.condition
  }

  lemma {:induction false} FilesAreAccountedFor(fs: Parser.FileSystem, root: string, files: seq<string>,
                                                trails: IG.Trails)
    requires TrailsOfFiles(fs, root, files, trails)
    ensures AccountsFor(trails, LoadFiles(fs, root, files).options)
  {
    hide LoadFiles, Parser.Inline, Parser.Absorb, TrailsOfFile, AccountsFor;
    if files == [] {
      NoFiles(fs, root);
      NothingToAccountFor();
    } else {
      var n := |files| - 1;
      var before := LoadFiles(fs, root, files[..n]);
      OneMoreFile(fs, root, files);
      EarlierTrails(fs, root, files, trails);
      var first := trails[..|before.sources|];
      FilesAreAccountedFor(fs, root, files[..n], first);
      if before.error.Some? {
        assert trails == first;
      } else {
        NextFileIsAccountedFor(fs, root, files, trails);
      }
    }
  }

  lemma NothingToAccountFor()
    ensures AccountsFor([], map[])
  {
  }

  lemma NextFileIsAccountedFor(fs: Parser.FileSystem, root: string, files: seq<string>, trails: IG.Trails)
    requires files != [] && TrailsOfFile(fs, root, files, |files| - 1, trails)
    requires var before := LoadFiles(fs, root, files[..|files| - 1]);
      && before.error.None? && |before.sources| <= |trails|
      && AccountsFor(trails[..|before.sources|], before.options)
    requires |trails| == |LoadFiles(fs, root, files).sources|
    ensures AccountsFor(trails, LoadFiles(fs, root, files).options)
  {
    hide LoadFiles, Parser.Inline, Parser.Absorb, PT.ImportTrail, AccountsFor;
    var before, path := LoadFiles(fs, root, files[..|files| - 1]), files[|files| - 1];
    var text, base := Parser.Inline(fs, root, path, []), |before.sources|;
    OneMoreFile(fs, root, files);
    if path !in fs.canonical {
      NothingInlined(fs, root, path);
    }
    forall e | e in text.entries ensures base + e.visit < |trails| && trails[base + e.visit] == e.gates {
      assert trails[base..base + |text.visits|][e.visit] == trails[base + e.visit];
    }
    MoreAccountedFor(before.options, text.entries, base, trails);
  }

  lemma MoreAccountedFor(options: Options, entries: seq<Parser.Entry>, base: nat, trails: IG.Trails)
    requires base <= |trails| && AccountsFor(trails[..base], options)
    requires base == 0 && trails != [] ==> trails[0] == []
    requires forall e :: e in entries ==> base + e.visit < |trails| && trails[base + e.visit] == e.gates
    ensures AccountsFor(trails, Parser.Absorb(options, entries, None, base))
  {
    hide Parser.Absorb, Innermost, RawOptions;
    if base > 0 {
      assert trails[..base][0] == trails[0];
    }
    forall key, o | o in RawOptions(Parser.Absorb(options, entries, None, base), key)
      ensures o.sourceIndex < |trails| && Innermost(None, trails[o.sourceIndex]) == o.condition
    {
      AbsorbedOption(options, entries, base, key, o);
      if o in RawOptions(options, key) {
        assert trails[..base][o.sourceIndex] == trails[o.sourceIndex];
      }
    }
  }

  // ---- Trails of every run command ------------------------------------------------------------------

  /** One trail per source, the command line's of no concern: those of the files that were
      read for it, in the order in which pushing and merging put their sources. */
  ghost predicate TrailsOf(m: RT.Making, trails: IG.Trails) {
    && |trails| == |RT.Made(m).sources|
    && match m
       case NewFrom(fs, root, files, _, _) =>
         var n := |LoadFiles(fs, root, files).sources|;
         n <= |trails| && TrailsOfFiles(fs, root, files, trails[..n])
       case BlankWith(_) => true
       case Pushed(made, _, _) =>
         |RT.Made(made).sources| <= |trails| && TrailsOf(made, trails[..|RT.Made(made).sources|])
       case Merged(first, second) =>
         var n := |RT.Made(first).sources|;
         n <= |trails| && TrailsOf(first, trails[..n]) && TrailsOf(second, trails[n..])
       case Configured(made, _, _, _) => TrailsOf(made, trails)
  }

  /** The trail of the option's source; on the command line just its own condition. */
  function BySource(sources: seq<string>, trails: IG.Trails): ET.Trail {
    (o: RcOption) =>
      if IsCommandLine(sources, o) || o.sourceIndex >= |trails| then [o.condition] else trails[o.sourceIndex]
  }

  function Blanks(n: nat): (trails: IG.Trails)
    ensures |trails| == n
  {
    seq(n, _ => [])
  }

  /** Every run command has such trails. */
  lemma {:induction false} TrailsExist(m: RT.Making) returns (trails: IG.Trails)
    ensures TrailsOf(m, trails)
  {
    hide LoadFiles, TrailsOfFiles;
    match m {
      case NewFrom(fs, root, files, _, flags) =>
        var read := FileTrails(fs, root, files);
        assert |read| == |LoadFiles(fs, root, files).sources| by { FilesOnly(fs, root, files, read); }
        trails := read + Blanks(|RT.Made(m).sources| - |read|);
        assert trails[..|read|] == read;
      case BlankWith(_) =>
        trails := Blanks(|RT.Made(m).sources|);
      case Pushed(made, _, _) =>
        var own := TrailsExist(made);
        trails := own + Blanks(|RT.Made(m).sources| - |own|);
        assert trails[..|own|] == own;
      case Merged(first, second) =>
        var one := TrailsExist(first);
        var two := TrailsExist(second);
        trails := one + two;
        assert trails[..|one|] == one && trails[|one|..] == two;
      case Configured(made, _, _, _) =>
        trails := TrailsExist(made);
    }
  }

  lemma FilesOnly(fs: Parser.FileSystem, root: string, files: seq<string>, trails: IG.Trails)
    requires TrailsOfFiles(fs, root, files, trails)
    ensures |trails| == |LoadFiles(fs, root, files).sources|
  {
  }

  /** What the comparison of gates needs of a run command and its trails. */
  ghost predicate Accounted(rc: BazelRC, trails: IG.Trails) {
    && |trails| == |rc.sources|
    && (trails != [] && rc.sources[0] != COMMAND_LINE ==> trails[0] == [])
    && forall key, o :: o in RawOptions(rc.options, key) ==> ET.Explains(BySource(rc.sources, trails), o)
  }

  /** However a run command is made: the gates of the imports behind each of its sources
      explain all options read from there. */
  lemma {:induction false} EveryOptionIsAccountedFor(m: RT.Making, trails: IG.Trails)
    requires RT.ReadsRealFiles(m) && TrailsOf(m, trails)
    ensures Accounted(RT.Made(m), trails)
  {
    hide LoadFiles, Merge, Push, AddFlags, Accounted, TrailsOfFiles, RT.CommandLineInAlways;
    match m {
      case NewFrom(fs, root, files, startup, flags) =>
        LoadedIsAccountedFor(fs, root, files, startup, flags, trails);
      case BlankWith(flags) =>
        NothingRead(flags, trails);
      case Pushed(made, value, condition) =>
        EveryOptionIsAccountedFor(made, trails[..|RT.Made(made).sources|]);
        RT.EveryRunCommandIsConsistent(made);
        PushedIsAccountedFor(RT.Made(made), value, condition, trails);
      case Merged(first, second) =>
        var n := |RT.Made(first).sources|;
        EveryOptionIsAccountedFor(first, trails[..n]);
        EveryOptionIsAccountedFor(second, trails[n..]);
        RT.EveryRunCommandIsConsistent(first);
        RT.EveryRunCommandIsConsistent(second);
        MergedIsAccountedFor(RT.Made(first), RT.Made(second), trails);
      case Configured(made, skip, startup, version) =>
        EveryOptionIsAccountedFor(made, trails);
        SettingsStayAccounted(RT.Made(made), skip, startup, version, trails);
    }
  }

  lemma SettingsStayAccounted(rc: BazelRC, skip: seq<string>, startup: seq<string>, version: Option<string>,
                              trails: IG.Trails)
    requires Accounted(rc, trails)
    ensures Accounted(rc.(skip := skip, startup := startup, version := version), trails)
  {
  }

  lemma LoadedIsAccountedFor(fs: Parser.FileSystem, root: string, files: seq<string>, startup: seq<string>,
                             flags: seq<RcOption>, trails: IG.Trails)
    requires COMMAND_LINE !in fs.canonical.Values && TrailsOf(RT.NewFrom(fs, root, files, startup, flags), trails)
    ensures Accounted(RT.Made(RT.NewFrom(fs, root, files, startup, flags)), trails)
  {
    hide LoadFiles, FlagOptions, TrailsOfFiles, Innermost;
    var all := LoadFiles(fs, root, files);
    var n := |all.sources|;
    FilesAreAccountedFor(fs, root, files, trails[..n]);
    RT.LoadedSourcesAreCanonical(fs, root, files);
    FilesOnly(fs, root, files, trails[..n]);
    var rc := RT.Made(RT.NewFrom(fs, root, files, startup, flags));
    RT.FlagOptionsAt(flags, n);
    OwnCondition();
    if trails != [] && rc.sources[0] != COMMAND_LINE {
      assert trails[..n][0] == trails[0];
    }
    forall key, o | o in RawOptions(rc.options, key) ensures ET.Explains(BySource(rc.sources, trails), o) {
      if o in RawOptions(all.options, key) {
        assert all.sources[o.sourceIndex] in all.sources && rc.sources[o.sourceIndex] == all.sources[o.sourceIndex];
        assert trails[..n][o.sourceIndex] == trails[o.sourceIndex];
      } else {
        assert o in FlagOptions(flags, n);
        assert IsCommandLine(rc.sources, o);
      }
    }
  }

  lemma NothingRead(flags: seq<RcOption>, trails: IG.Trails)
    requires |trails| == |AddFlags(BLANK, flags).sources|
    ensures Accounted(AddFlags(BLANK, flags), trails)
  {
    hide FlagOptions, Innermost;
    RT.FlagOptionsAt(flags, 0);
    OwnCondition();
    var rc := AddFlags(BLANK, flags);
    forall key, o | o in RawOptions(rc.options, key) ensures ET.Explains(BySource(rc.sources, trails), o) {
      assert o in FlagOptions(flags, 0) && IsCommandLine(rc.sources, o);
    }
  }

  lemma PushedIsAccountedFor(rc: BazelRC, value: string, condition: Option<string>, trails: IG.Trails)
    requires RT.ConsistentRC(rc) && |trails| == |Push(rc, value, condition).sources| >= |rc.sources|
    requires Accounted(rc, trails[..|rc.sources|])
    ensures Accounted(Push(rc, value, condition), trails)
  {
    hide Innermost, RT.ConsistentRC;
    var pushed, own := Push(rc, value, condition), trails[..|rc.sources|];
    OwnCondition();
    forall key, o | o in RawOptions(pushed.options, key) ensures ET.Explains(BySource(pushed.sources, trails), o) {
      if o in RawOptions(rc.options, key) {
        RT.OptionInRange(rc, key, o);
        assert ET.Explains(BySource(rc.sources, own), o);
        assert own[o.sourceIndex] == trails[o.sourceIndex];
      } else {
        assert IsCommandLine(pushed.sources, o);
      }
    }
  }

  lemma MergedIsAccountedFor(a: BazelRC, b: BazelRC, trails: IG.Trails)
    requires RT.ConsistentRC(a) && RT.ConsistentRC(b) && |trails| == |a.sources| + |b.sources|
    requires Accounted(a, trails[..|a.sources|]) && Accounted(b, trails[|a.sources|..])
    ensures Accounted(Merge(a, b), trails)
  {
    hide Merge, RawOptions, Innermost, RT.ConsistentRC;
    var m, n := Merge(a, b), |a.sources|;
    RT.MergedSources(a, b);
    forall key, o | o in RawOptions(m.options, key) ensures ET.Explains(BySource(m.sources, trails), o) {
      var i :| 0 <= i < |RawOptions(m.options, key)| && RawOptions(m.options, key)[i] == o;
      MergedOptionIsExplained(a, b, trails, key, i);
    }
  }

  lemma MergedOptionIsExplained(a: BazelRC, b: BazelRC, trails: IG.Trails, key: string, i: nat)
    requires RT.ConsistentRC(a) && RT.ConsistentRC(b) && |trails| == |a.sources| + |b.sources|
    requires Accounted(a, trails[..|a.sources|]) && Accounted(b, trails[|a.sources|..])
    requires i < |RawOptions(Merge(a, b).options, key)|
    ensures ET.Explains(BySource(Merge(a, b).sources, trails), RawOptions(Merge(a, b).options, key)[i])
  {
    hide Merge, RawOptions, Innermost, RT.ConsistentRC;
    var mine, theirs, n := RawOptions(a.options, key), RawOptions(b.options, key), |a.sources|;
    RT.MergedOption(a, b, key, i);
    RT.MergedSources(a, b);
    var o := RawOptions(Merge(a, b).options, key)[i];
    if i < |mine| {
      RT.OptionInRange(a, key, mine[i]);
      assert ET.Explains(BySource(a.sources, trails[..n]), mine[i]);
      assert trails[..n][o.sourceIndex] == trails[o.sourceIndex];
    } else {
      var before := theirs[i - |mine|];
      RT.OptionInRange(b, key, before);
      assert before in theirs && ET.Explains(BySource(b.sources, trails[n..]), before);
      assert trails[n..][before.sourceIndex] == trails[o.sourceIndex];
    }
  }

  /** So all gates of imports and configs count in the comparison above, however the run
      command was made. */
  lemma EveryRunCommandIsExplained(m: RT.Making, trails: IG.Trails, platform: string)
    requires RT.ReadsRealFiles(m) && TrailsOf(m, trails)
    ensures ExplainsBuckets(BySource(RT.Made(m).sources, trails), RT.Made(m).options, platform)
  {
    hide Innermost, TrailsOf, BySource, RT.Made;
    EveryOptionIsAccountedFor(m, trails);
    PlatformFlagIsExplained(RT.Made(m), trails, platform);
  }

  lemma PlatformFlagIsExplained(rc: BazelRC, trails: IG.Trails, platform: string)
    requires Accounted(rc, trails)
    ensures ET.Explains(BySource(rc.sources, trails), E.PlatformFlag(platform))
  {
    OwnCondition();
  }

  lemma OwnCondition()
    ensures forall o: RcOption :: Innermost(None, [o.condition]) == o.condition
    ensures Innermost(None, []) == None
  {
    forall o: RcOption ensures Innermost(None, [o.condition]) == o.condition {
      InnermostStep(None, o.condition, []);
      assert [o.condition] + [] == [o.condition];
    }
  }
}
