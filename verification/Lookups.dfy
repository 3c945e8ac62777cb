/** What a command is given, from the sections, flags and versions themselves: the order of
    its sections, what `--config=` and the platform switch stand for, and whose version and
    startup flags an overlay has. */
module Lookups {
  import opened Prelude
  import opened Rc
  import opened RunCommands
  import E = Expander
  import ET = ExpanderTheory
  import RT = RunTheory

  // ---- Inheritance ----------------------------------------------------------------------------

  /** The lookup by command: what comes before the command's own section. */
  lemma LookupOrder(rc: BazelRC, command: string)
    ensures var options, all := rc.options, OptionsFor(rc, command);
      var first := FileFlags(rc) + RawOptions(options, "common");
      var last := RawOptions(options, command) + CommandLineFlags(rc);
      && (command in {"test", "run", "clean", "mobile-install", "info", "print_action", "config",
                      "cquery", "aquery"} ==>
        all == first + RawOptions(options, "build") + last)
      && (command in {"coverage", "fetch", "vendor"} ==>
        all == first + RawOptions(options, "build") + RawOptions(options, "test") + last)
      && (command !in {"test", "run", "clean", "mobile-install", "info", "print_action", "config",
                       "cquery", "aquery", "coverage", "fetch", "vendor"} ==>
        all == first + last)
  {
    hide RawOptions, FileFlags, CommandLineFlags, NamedSections, Flatten, CommandAncestors;
    RT.LookupEndsInCommandLine(rc, command);
    var between := CommandAncestors(command);
    var keys := ["common"] + between + [command];
    FlattenConcat([FileFlags(rc)], NamedSections(rc.options, keys));
    One(FileFlags(rc));
    NamedEnds(rc.options, between, command);
    NamedFew(rc.options, "build", "test");
    Inherits(command);
  }

  lemma One<T>(part: seq<T>)
    ensures Flatten([part]) == part
  {
  }

  /** `always` holds the flags of files and those of the command line, each in order. */
  lemma AlwaysIsSplit(rc: BazelRC)
    ensures var given := (o: RcOption) => o.sourceIndex < |rc.sources| && rc.sources[o.sourceIndex] == "<command line>";
      && CommandLineFlags(rc) == Filter(given, RawOptions(rc.options, "always"))
      && FileFlags(rc) == Filter((o: RcOption) => !given(o), RawOptions(rc.options, "always"))
  {
    var given := (o: RcOption) => o.sourceIndex < |rc.sources| && rc.sources[o.sourceIndex] == "<command line>";
    FiltersAgree(FromCommandLine(rc.sources), given, RawOptions(rc.options, "always"));
    FiltersAgree(FromFiles(rc.sources), (o: RcOption) => !given(o), RawOptions(rc.options, "always"));
  }

  lemma Inherits(command: string)
    ensures command in {"test", "run", "clean", "mobile-install", "info", "print_action", "config",
                      "cquery", "aquery"} ==>
      CommandAncestors(command) == ["build"]
    ensures command in {"coverage", "fetch", "vendor"} ==> CommandAncestors(command) == ["build", "test"]
    ensures command !in {"test", "run", "clean", "mobile-install", "info", "print_action", "config",
                         "cquery", "aquery", "coverage", "fetch", "vendor"} ==>
      CommandAncestors(command) == []
  {
  }

  lemma NamedEnds(options: Options, between: seq<string>, command: string)
    ensures Flatten(NamedSections(options, ["common"] + between + [command])) ==
      RawOptions(options, "common") + Flatten(NamedSections(options, between)) + RawOptions(options, command)
  {
    hide RawOptions;
    RT.NamedSnoc(options, ["common"] + between, command);
    assert (["common"] + between)[1..] == between;
    assert NamedSections(options, ["common"] + between)[1..] == NamedSections(options, between);
  }

  lemma NamedFew(options: Options, a: string, b: string)
    ensures Flatten(NamedSections(options, [])) == []
    ensures Flatten(NamedSections(options, [a])) == RawOptions(options, a)
    ensures Flatten(NamedSections(options, [a, b])) == RawOptions(options, a) + RawOptions(options, b)
  {
    hide RawOptions;
    assert [a][1..] == [] && [a, b][1..] == [b];
    RT.NamedSnoc(options, [], a);
    RT.NamedSnoc(options, [a], b);
    assert [] + [a] == [a] && [a] + [b] == [a, b];
  }

  // ---- Configs ----------------------------------------------------------------------------------

  lemma {:induction false} GatherConcat(options: Options, a: seq<string>, b: seq<string>, name: string)
    ensures E.GatherSections(options, a + b, name) ==
            E.GatherSections(options, a, name) + E.GatherSections(options, b, name)
  {
    if b == [] {
      assert a + b == a;
    } else {
      assert (a + b)[..|a + b| - 1] == a + b[..|b| - 1];
      GatherConcat(options, a, b[..|b| - 1], name);
    }
  }

  lemma GatherFew(options: Options, a: string, b: string, name: string)
    ensures E.GatherSections(options, [], name) == []
    ensures E.GatherSections(options, [a], name) == RawOptions(options, a + ":" + name)
    ensures E.GatherSections(options, [a, b], name) ==
            RawOptions(options, a + ":" + name) + RawOptions(options, b + ":" + name)
  {
    hide RawOptions;
    assert [a][..0] == [] && [a, b][..1] == [a];
  }

  /** The sections that a config stands for, in the order they apply. */
  lemma ConfigSections(s: E.Setting, name: string)
    ensures var options, command, all := s.options, s.command, E.Body(s, name);
      var first, own := RawOptions(options, "always:" + name) + RawOptions(options, "common:" + name),
        RawOptions(options, command + ":" + name);
      && (command in {"test", "run", "clean", "mobile-install", "info", "print_action", "config",
                      "cquery", "aquery"} ==>
        all == first + RawOptions(options, "build:" + name) + own)
      && (command in {"coverage", "fetch", "vendor"} ==>
        all == first + RawOptions(options, "build:" + name) + RawOptions(options, "test:" + name) + own)
      && (command !in {"test", "run", "clean", "mobile-install", "info", "print_action", "config",
                       "cquery", "aquery", "coverage", "fetch", "vendor"} ==>
        all == first + own)
  {
    hide RawOptions, E.GatherSections, CommandAncestors;
    var options, command, between := s.options, s.command, CommandAncestors(s.command);
    Inherits(command);
    GatherConcat(options, ["always", "common"] + between, [command], name);
    GatherConcat(options, ["always", "common"], between, name);
    GatherFew(options, "always", "common", name);
    GatherFew(options, "build", "test", name);
    GatherFew(options, command, command, name);
    Written(name);
  }

  lemma Written(name: string)
    ensures "always" + ":" + name == "always:" + name && "common" + ":" + name == "common:" + name
    ensures "build" + ":" + name == "build:" + name && "test" + ":" + name == "test:" + name
  {
    assert "always" + ":" == "always:" && "common" + ":" == "common:";
    assert "build" + ":" == "build:" && "test" + ":" == "test:";
  }

  /** A request for one config, whatever it is called: what it stands for, when it may be
      missing, and which error it is. */
  lemma ConfigRequest(s: E.Setting, o: RcOption, name: string, chain: seq<string>)
    requires o.value == "--config=" + name
    ensures var all := E.Expand(s, [o], chain);
      && (name in chain ==> all == E.Expansion([], Some(ConfigCycle(chain + [name]))))
      && (name !in chain && E.Body(s, name) == [] ==>
        all.kept == [] && all.error ==
          if name in s.skip || (s.implicitPlatform && chain == [] && name == s.platform) then None
          else Some(UndefinedConfig(s.command, name)))
      && (name !in chain && E.Body(s, name) != [] ==>
        var inner := E.Expand(s, E.Body(s, name), chain + [name]);
        all.error == inner.error && |all.kept| == |inner.kept|
        && forall i :: 0 <= i < |inner.kept| ==>
          all.kept[i].way == [o] + inner.kept[i].way && all.kept[i].option == inner.kept[i].option)
  {
    hide E.Body;
    assert |"--config="| == 9 && o.value[9..] == name;
    assert [o][..0] == [];
    ET.ExpandSingle(s, o, chain);
    if name !in chain && E.Body(s, name) != [] {
      ET.UnderAt(o, E.Expand(s, E.Body(s, name), chain + [name]).kept);
    }
  }

  lemma {:induction false} UngatedFlagPassesNothing(flag: RcOption, kept: seq<E.Kept>)
    requires flag.condition.None?
    ensures E.Results(E.Under(flag, kept)) == E.Results(kept)
  {
    if kept != [] {
      var n := |kept| - 1;
      UngatedFlagPassesNothing(flag, kept[..n]);
      var deeper := E.Deeper(flag, kept[n]);
      assert deeper.way[1..] == kept[n].way;
      InnermostStep(None, None, E.Gates(kept[n].way, kept[n].option));
    }
  }

  /** With the platform switch among a command's options, what they expand to is what the
      platform's config stands for, followed by what they expand to by themselves; without it,
      just that. */
  lemma PlatformSwitch(options: Options, command: string, skip: seq<string>, platform: string, base: seq<RcOption>)
    ensures var all := E.ExpandCommand(options, command, skip, platform, base);
      if exists i :: 0 <= i < |base| && base[i].value == "--enable_platform_specific_config" then
        var s := E.Setting(options, command, skip, true, platform);
        var own, rest := E.Expand(s, E.Body(s, platform), [platform]), E.Expand(s, base, []);
        if E.Body(s, platform) == [] then all == rest
        else if own.error.Some? then all.error == own.error
        else all.error == rest.error && E.Results(all.kept) == E.Results(own.kept) + E.Results(rest.kept)
      else all == E.Expand(E.Setting(options, command, skip, false, platform), base, [])
  {
    hide E.Expand, E.Body, E.Results, E.Under;
    if exists i :: 0 <= i < |base| && base[i].value == "--enable_platform_specific_config" {
      assert E.HasPlatformSwitch(base);
      var s, flag := E.Setting(options, command, skip, true, platform), E.PlatformFlag(platform);
      ET.ExpandConcat(s, [flag], base, []);
      PlatformFlagExpands(s, flag);
      var rest := E.Expand(s, base, []);
      assert [] + rest.kept == rest.kept;
      if E.Body(s, platform) != [] {
        var own := E.Expand(s, E.Body(s, platform), [platform]);
        E.ResultsConcat(E.Under(flag, own.kept), rest.kept);
        UngatedFlagPassesNothing(flag, own.kept);
      }
    } else {
      assert !E.HasPlatformSwitch(base);
    }
  }

  lemma {:induction false} PlatformFlagExpands(s: E.Setting, flag: RcOption)
    requires s.implicitPlatform && flag.value == "--config=" + s.platform
    ensures E.Body(s, s.platform) == [] ==> E.Expand(s, [flag], []) == E.Expansion([], None)
    ensures E.Body(s, s.platform) != [] ==>
      var own := E.Expand(s, E.Body(s, s.platform), [s.platform]);
      E.Expand(s, [flag], []) == E.Expansion(E.Under(flag, own.kept), own.error)
  {
    hide E.Body;
    assert |"--config="| == 9 && flag.value[9..] == s.platform;
    ET.ExpandSingle(s, flag, []);
    assert [] + [s.platform] == [s.platform];
  }

  // ---- Overlays -----------------------------------------------------------------------------------

  /** Run commands overlaid one on the other, from left to right. */
  function Overlaid(rcs: seq<BazelRC>): BazelRC
    requires rcs != []
  {
    if |rcs| == 1 then rcs[0] else Merge(Overlaid(rcs[..|rcs| - 1]), rcs[|rcs| - 1])
  }

  /** The version of the last that has one; none if none has. */
  lemma {:induction false} OverlaidVersion(rcs: seq<BazelRC>, i: nat)
    requires i < |rcs| && forall j :: i < j < |rcs| ==> rcs[j].version.None?
    requires rcs[i].version.Some? || i == 0
    ensures Overlaid(rcs).version == rcs[i].version
    decreases |rcs|
  {
    hide Merge;
    var n := |rcs| - 1;
    if n > 0 {
      OverlaySettings(Overlaid(rcs[..n]), rcs[n]);
      if i < n {
        OverlaidVersion(rcs[..n], i);
      }
    }
  }

  function StartupsOf(rcs: seq<BazelRC>): (parts: seq<seq<string>>)
    ensures |parts| == |rcs| && forall i :: 0 <= i < |rcs| ==> parts[i] == rcs[i].startup
  {
    if rcs == [] then [] else StartupsOf(rcs[..|rcs| - 1]) + [rcs[|rcs| - 1].startup]
  }

  /** All startup flags, in the order of the run commands. */
  lemma {:induction false} OverlaidStartup(rcs: seq<BazelRC>)
    requires rcs != []
    ensures Overlaid(rcs).startup == Flatten(StartupsOf(rcs))
  {
    hide Merge, Flatten;
    var n := |rcs| - 1;
    if n == 0 {
      One(rcs[0].startup);
      assert StartupsOf(rcs) == [rcs[0].startup];
    } else {
      OverlaidStartup(rcs[..n]);
      OverlaySettings(Overlaid(rcs[..n]), rcs[n]);
      FlattenSnoc(StartupsOf(rcs[..n]), rcs[n].startup);
    }
  }

  lemma OverlaySettings(a: BazelRC, b: BazelRC)
    ensures Merge(a, b).version == if b.version.Some? then b.version else a.version
    ensures Merge(a, b).startup == a.startup + b.startup
  {
  }

  /** The configs that may be missing: the first's, then each of the second's that is not
      there yet, once. */
  lemma {:induction false} OverlaidSkips(acc: seq<string>, more: seq<string>)
    ensures var all := AddMissing(acc, more);
      && acc <= all && (forall name :: name in all <==> name in acc || name in more)
      && IsSubsequence(all[|acc|..], more)
      && forall i, j :: |acc| <= i < |all| && 0 <= j < |all| && all[i] == all[j] ==> i == j
  {
    if more == [] {
      assert acc[|acc|..] == [];
    } else {
      var n := |more| - 1;
      var before := AddMissing(acc, more[..n]);
      OverlaidSkips(acc, more[..n]);
      assert more == more[..n] + [more[n]];
      var added := if more[n] in before then [] else [more[n]];
      assert IsSubsequence(added, [more[n]]);
      SubsequenceConcat(before[|acc|..], more[..n], added, [more[n]]);
      assert AddMissing(acc, more)[|acc|..] == before[|acc|..] + added;
    }
  }
}
