/** The resolved set of run commands (crates/bazelrc/src/lib.rs): loading, lookup by
    command, overlaying, and the options that apply at a Bazel version. */
module RunCommands {
  import opened Prelude
  import opened Rc
  import Parser
  import Expander

  const COMMAND_LINE := "<command line>"

  datatype BazelRC = BazelRC(options: Options, sources: seq<string>, skip: seq<string>, startup: seq<string>,
                             version: Option<string>)

  const BLANK := BazelRC(map[], [], [], [], None)

  // ---- Lookup -----------------------------------------------------------------------

  predicate IsCommandLine(sources: seq<string>, o: RcOption) {
    o.sourceIndex < |sources| && sources[o.sourceIndex] == COMMAND_LINE
  }

  function FromCommandLine(sources: seq<string>): RcOption -> bool {
    (o: RcOption) => IsCommandLine(sources, o)
  }

  function FromFiles(sources: seq<string>): RcOption -> bool {
    (o: RcOption) => !IsCommandLine(sources, o)
  }

  function CommandLineFlags(rc: BazelRC): seq<RcOption> {
    Filter(FromCommandLine(rc.sources), RawOptions(rc.options, "always"))
  }

  function FileFlags(rc: BazelRC): seq<RcOption> {
    Filter(FromFiles(rc.sources), RawOptions(rc.options, "always"))
  }

  function NamedSections(options: Options, keys: seq<string>): seq<seq<RcOption>> {
    if keys == [] then [] else [RawOptions(options, keys[0])] + NamedSections(options, keys[1..])
  }

  /** The sections that apply to a command, in the order they apply: `always` from files,
      `common`, the ancestors, the command itself, and last what the command line gave. */
  function Sections(rc: BazelRC, command: string): seq<seq<RcOption>> {
    [FileFlags(rc)] + NamedSections(rc.options, ["common"] + CommandAncestors(command) + [command]) +
      [CommandLineFlags(rc)]
  }

  function OptionsFor(rc: BazelRC, command: string): seq<RcOption> {
    Flatten(Sections(rc, command))
  }

  // ---- Overlaying -------------------------------------------------------------------

  /** Options of an overlay, pointing past the sources of what it overlays. */
  function Rebase(opts: seq<RcOption>, offset: nat): seq<RcOption> {
    if opts == [] then []
    else
      var n := |opts| - 1;
      Rebase(opts[..n], offset) + [opts[n].(sourceIndex := opts[n].sourceIndex + offset)]
  }

  /** `acc` followed by the names of `more` it does not have yet. */
  function AddMissing(acc: seq<string>, more: seq<string>): seq<string> {
    if more == [] then acc
    else
      var n := |more| - 1;
      var before := AddMissing(acc, more[..n]);
      if more[n] in before then before else before + [more[n]]
  }

  /** The buckets once the sections in `done` have been overlaid. */
  function OverlayOptions(a: Options, b: Options, done: set<string>, offset: nat): Options {
    map key | key in a.Keys + b.Keys * done ::
      if key in done then RawOptions(a, key) + Rebase(RawOptions(b, key), offset) else RawOptions(a, key)
  }

  function Merge(a: BazelRC, b: BazelRC): BazelRC {
    BazelRC(
      OverlayOptions(a.options, b.options, b.options.Keys, |a.sources|),
      a.sources + b.sources,
      AddMissing(a.skip, b.skip),
      a.startup + b.startup,
      if b.version.Some? then b.version else a.version)
  }

  // ---- Command-line flags -------------------------------------------------------------

  function FlagOptions(flags: seq<RcOption>, source: nat): seq<RcOption> {
    if flags == [] then []
    else
      var n := |flags| - 1;
      FlagOptions(flags[..n], source) + [flags[n].(sourceIndex := source, command := "always")]
  }

  function AddFlags(rc: BazelRC, flags: seq<RcOption>): BazelRC {
    if flags == [] then rc
    else rc.(
      sources := rc.sources + [COMMAND_LINE],
      options := rc.options["always" := RawOptions(rc.options, "always") + FlagOptions(flags, |rc.sources|)])
  }

  /** Position of the first command-line source, or one past the end. */
  function FirstCommandLine(sources: seq<string>): (i: nat)
    ensures i <= |sources|
    ensures i < |sources| ==> sources[i] == COMMAND_LINE
    ensures forall j :: 0 <= j < i ==> sources[j] != COMMAND_LINE
  {
    if sources == [] || sources[0] == COMMAND_LINE then 0 else 1 + FirstCommandLine(sources[1..])
  }

  function PushedOption(rc: BazelRC, value: string, condition: Option<string>): RcOption {
    RcOption(value, "always", FirstCommandLine(rc.sources), condition)
  }

  function Push(rc: BazelRC, value: string, condition: Option<string>): BazelRC {
    rc.(
      sources := if FirstCommandLine(rc.sources) == |rc.sources| then rc.sources + [COMMAND_LINE] else rc.sources,
      options := rc.options["always" := RawOptions(rc.options, "always") + [PushedOption(rc, value, condition)]])
  }

  // ---- Loading ------------------------------------------------------------------------

  /** The files' texts absorbed one after the other; the first that fails decides. */
  datatype Loaded = Loaded(options: Options, sources: seq<string>, error: Option<RcError>)

  function LoadFiles(fs: Parser.FileSystem, root: string, files: seq<string>): Loaded {
    if files == [] then Loaded(map[], [], None)
    else
      var before := LoadFiles(fs, root, files[..|files| - 1]);
      if before.error.Some? then before
      else
        var text := Parser.Inline(fs, root, files[|files| - 1], []);
        Loaded(Parser.Absorb(before.options, text.entries, None, |before.sources|), before.sources + text.visits,
          text.error)
  }

  /** The run command, as the program holds it. */
  class RunCommand {
    var options: Options
    var sources: seq<string>
    var skip: seq<string>
    var startup: seq<string>
    var version: Option<string>

    function Value(): BazelRC
      reads this
    {
      BazelRC(options, sources, skip, startup, version)
    }

    constructor (rc: BazelRC)
      ensures Value() == rc
    {
      options, sources, skip, startup, version := rc.options, rc.sources, rc.skip, rc.startup, rc.version;
    }

    /** A run command that reads no files. */
    constructor Blank(flags: seq<RcOption>)
      ensures Value() == AddFlags(BLANK, flags)
    {
      var opts: Options, paths: seq<string> := map[], [];
      if |flags| > 0 {
        paths := paths + [COMMAND_LINE];
        var always := AsCommandLine(flags, 0);
        opts := opts["always" := RawOptions(opts, "always") + always];
      }
      options, sources, skip, startup, version := opts, paths, [], [], None;
    }

    /** Flags given by a caller, as options of the command line's source. */
    static method AsCommandLine(flags: seq<RcOption>, source: nat) returns (opts: seq<RcOption>)
      ensures opts == FlagOptions(flags, source)
    {
      opts := [];
      var i := 0;
      while i < |flags|
        invariant 0 <= i <= |flags| && opts == FlagOptions(flags[..i], source)
      {
        assert flags[..i + 1][..i] == flags[..i];
        opts := opts + [flags[i].(sourceIndex := source, command := "always")];
        i := i + 1;
      }
      assert flags[..i] == flags;
    }

    /** Appends one command-line flag, under the command-line source. */
    method PushFlag(value: string, condition: Option<string>)
      modifies this
      ensures Value() == Push(old(Value()), value, condition)
    {
      var i := 0;
      while i < |sources| && sources[i] != COMMAND_LINE
        invariant 0 <= i <= |sources|
        invariant forall j :: 0 <= j < i ==> sources[j] != COMMAND_LINE
      {
        i := i + 1;
      }
      assert i == FirstCommandLine(sources);
      if i == |sources| {
        sources := sources + [COMMAND_LINE];
      }
      options := options["always" := RawOptions(options, "always") + [RcOption(value, "always", i, condition)]];
    }

    /** Overlays another run command on this one; the sections are met in any order. */
    method Overlay(other: RunCommand) returns (merged: RunCommand)
      ensures fresh(merged)
      ensures merged.Value() == Merge(Value(), other.Value())
    {
      hide OverlayOptions, Rebase, AddMissing;
      merged := new RunCommand(Value());
      OverlayNothing(options, other.options, |sources|);
      assert other.options.Keys - other.options.Keys == {};
      var offset := |merged.sources|;
      merged.sources := merged.sources + other.sources;
      var pending := other.options.Keys;
      while pending != {}
        invariant pending <= other.options.Keys
        invariant merged.options == OverlayOptions(options, other.options, other.options.Keys - pending, offset)
        invariant merged.sources == sources + other.sources && merged.skip == skip
        invariant merged.startup == startup && merged.version == version
        decreases pending
      {
        var key :| key in pending;
        var moved := Moved(other.options[key], offset);
        merged.options := merged.options[key := RawOptions(merged.options, key) + moved];
        OverlaySection(options, other.options, other.options.Keys - pending, key, offset);
        assert other.options.Keys - (pending - {key}) == other.options.Keys - pending + {key};
        pending := pending - {key};
      }
      assert other.options.Keys - pending == other.options.Keys;
      merged.startup := merged.startup + other.startup;
      merged.skip := Skips(merged.skip, other.skip);
      if other.version.Some? {
        merged.version := other.version;
      }
    }

    static method Moved(opts: seq<RcOption>, offset: nat) returns (moved: seq<RcOption>)
      ensures moved == Rebase(opts, offset)
    {
      moved := [];
      var i := 0;
      while i < |opts|
        invariant 0 <= i <= |opts| && moved == Rebase(opts[..i], offset)
      {
        assert opts[..i + 1][..i] == opts[..i];
        moved := moved + [opts[i].(sourceIndex := opts[i].sourceIndex + offset)];
        i := i + 1;
      }
      assert opts[..i] == opts;
    }

    static method Skips(acc: seq<string>, more: seq<string>) returns (all: seq<string>)
      ensures all == AddMissing(acc, more)
    {
      all := acc;
      var i := 0;
      while i < |more|
        invariant 0 <= i <= |more| && all == AddMissing(acc, more[..i])
      {
        assert more[..i + 1][..i] == more[..i];
        if more[i] !in all {
          all := all + [more[i]];
        }
        i := i + 1;
      }
      assert more[..i] == more;
    }
  }

  lemma OverlayNothing(a: Options, b: Options, offset: nat)
    ensures OverlayOptions(a, b, {}, offset) == a
  {
    assert a.Keys + b.Keys * {} == a.Keys;
  }

  lemma OverlaySection(a: Options, b: Options, done: set<string>, key: string, offset: nat)
    requires key in b && key !in done && done <= b.Keys
    ensures var before := OverlayOptions(a, b, done, offset);
      OverlayOptions(a, b, done + {key}, offset) == before[key := RawOptions(before, key) + Rebase(b[key], offset)]
  {
    var before := OverlayOptions(a, b, done, offset);
    assert RawOptions(before, key) == RawOptions(a, key);
  }

  /** Loads the given rc files in order and adds the command-line flags. */
  method Load(fs: Parser.FileSystem, root: string, files: seq<string>, startup: seq<string>, flags: seq<RcOption>)
      returns (error: Option<RcError>, rc: RunCommand)
    ensures var all := LoadFiles(fs, root, files);
      && error == all.error
      && (error.None? ==> rc.Value() == AddFlags(BazelRC(all.options, all.sources, [], startup, None), flags))
  {
    hide Parser.Inline, Parser.Absorb;
    var parser := new Parser.RcParser();
    rc := new RunCommand(BLANK);
    var i := 0;
    while i < |files|
      invariant 0 <= i <= |files| && parser.importStack == []
      invariant LoadFiles(fs, root, files[..i]) == Loaded(parser.options, parser.sources, None)
    {
      assert files[..i + 1][..i] == files[..i];
      error := parser.ParseFile(fs, root, files[i], None);
      if error.Some? {
        LoadStops(fs, root, files, i + 1);
        return;
      }
      i := i + 1;
    }
    assert files[..i] == files;
    error := None;
    var options, sources := parser.options, parser.sources;
    if |flags| > 0 {
      var always := RunCommand.AsCommandLine(flags, |sources|);
      sources := sources + [COMMAND_LINE];
      options := options["always" := RawOptions(options, "always") + always];
    }
    rc := new RunCommand(BazelRC(options, sources, [], startup, None));
  }

  lemma {:induction false} LoadStops(fs: Parser.FileSystem, root: string, files: seq<string>, n: nat)
    requires n <= |files| && LoadFiles(fs, root, files[..n]).error.Some?
    ensures LoadFiles(fs, root, files) == LoadFiles(fs, root, files[..n])
    decreases |files|
  {
    if n == |files| {
      assert files[..n] == files;
    } else {
      assert files[..|files| - 1][..n] == files[..n];
      LoadStops(fs, root, files[..|files| - 1], n);
    }
  }

  // ---- The options that apply at a version ----------------------------------------------

  /** Constraints and versions as the semver library reads them: whether a text is a
      constraint, whether it is a version, and whether a constraint admits a version (`None`
      stands for later than all). */
  datatype Semver = Semver(
    parses: string -> bool, isVersion: string -> bool, admits: (string, Option<string>) -> bool)

  /** The version options are filtered for: the one asked for, later than all when it cannot
      be read, or else the run command's own. */
  function Effective(rc: BazelRC, semver: Semver, asked: Option<string>): Option<string> {
    match asked
    case Some(v) => if semver.isVersion(v) then Some(v) else None
    case None => rc.version
  }

  datatype Applicable = Applies(options: seq<RcOption>) | ExpansionFails(error: RcError)
    | BadConstraint(condition: string)

  predicate Admitted(semver: Semver, version: Option<string>, o: RcOption) {
    o.condition.Some? ==> semver.admits(o.condition.value, version)
  }

  predicate BadlyGated(semver: Semver, o: RcOption) {
    o.condition.Some? && !semver.parses(o.condition.value)
  }

  /** The admitted options, unless some gate before them cannot be read. */
  function Admit(semver: Semver, version: Option<string>, opts: seq<RcOption>): Applicable {
    if opts == [] then Applies([])
    else
      var n := |opts| - 1;
      var before := Admit(semver, version, opts[..n]);
      if !before.Applies? then before
      else if BadlyGated(semver, opts[n]) then BadConstraint(opts[n].condition.value)
      else if Admitted(semver, version, opts[n]) then Applies(before.options + [opts[n]])
      else before
  }

  function ApplicableOptions(rc: BazelRC, command: string, platform: string, semver: Semver,
                             version: Option<string>): Applicable
  {
    var all := Expander.ExpandCommand(rc.options, command, rc.skip, platform, OptionsFor(rc, command));
    if all.error.Some? then ExpansionFails(all.error.value) else Admit(semver, version, Expander.Results(all.kept))
  }

  method FindApplicable(rc: BazelRC, command: string, platform: string, semver: Semver, asked: Option<string>)
      returns (found: Applicable)
    ensures found == ApplicableOptions(rc, command, platform, semver, Effective(rc, semver, asked))
  {
    hide Expander.ExpandCommand, OptionsFor;
    var error, opts := Expander.ExpandConfigs(rc.options, command, rc.skip, platform, OptionsFor(rc, command));
    if error.Some? {
      return ExpansionFails(error.value);
    }
    var version := rc.version;
    if asked.Some? {
      version := if semver.isVersion(asked.value) then asked else None;
    }
    if !exists i :: 0 <= i < |opts| && opts[i].condition.Some? {
      UngatedAdmitted(semver, version, opts);
      return Applies(opts);
    }
    var out, i := [], 0;
    while i < |opts|
      invariant 0 <= i <= |opts| && Admit(semver, version, opts[..i]) == Applies(out)
    {
      assert opts[..i + 1][..i] == opts[..i];
      match opts[i].condition {
        case None => out := out + [opts[i]];
        case Some(condition) =>
          if !semver.parses(condition) {
            AdmitStops(semver, version, opts, i + 1);
            return BadConstraint(condition);
          }
          if semver.admits(condition, version) {
            out := out + [opts[i]];
          }
      }
      i := i + 1;
    }
    assert opts[..i] == opts;
    found := Applies(out);
  }

  lemma {:induction false} AdmitStops(semver: Semver, version: Option<string>, opts: seq<RcOption>, n: nat)
    requires n <= |opts| && !Admit(semver, version, opts[..n]).Applies?
    ensures Admit(semver, version, opts) == Admit(semver, version, opts[..n])
    decreases |opts|
  {
    if n == |opts| {
      assert opts[..n] == opts;
    } else {
      assert opts[..|opts| - 1][..n] == opts[..n];
      AdmitStops(semver, version, opts[..|opts| - 1], n);
    }
  }

  lemma {:induction false} UngatedAdmitted(semver: Semver, version: Option<string>, opts: seq<RcOption>)
    requires forall i :: 0 <= i < |opts| ==> opts[i].condition.None?
    ensures Admit(semver, version, opts) == Applies(opts)
  {
    if opts != [] {
      UngatedAdmitted(semver, version, opts[..|opts| - 1]);
    }
  }
}
