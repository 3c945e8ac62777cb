/** In-place expansion of `--config=` flags (crates/bazelrc/src/expand.rs). */
module Expander {
  import opened Prelude
  import opened Rc

  const CONFIG_FLAG := "--config="
  const PLATFORM_SWITCH := "--enable_platform_specific_config"

  /** What an expansion reads: the sections, the command, the names that may be missing,
      whether the platform's own config may be, and which one that is. */
  datatype Setting = Setting(options: Options, command: string, skip: seq<string>, implicitPlatform: bool,
                             platform: string)

  predicate IsConfig(o: RcOption) {
    CONFIG_FLAG <= o.value
  }

  function ConfigName(o: RcOption): string
    requires IsConfig(o)
  {
    o.value[|CONFIG_FLAG|..]
  }

  /** The section bases a config is looked up under, in the order they apply. */
  function Prefixes(command: string): seq<string> {
    ["always", "common"] + CommandAncestors(command) + [command]
  }

  function GatherSections(options: Options, prefixes: seq<string>, name: string): seq<RcOption> {
    if prefixes == [] then []
    else
      var n := |prefixes| - 1;
      GatherSections(options, prefixes[..n], name) + RawOptions(options, prefixes[n] + ":" + name)
  }

  /** Everything that `--config=name` stands for. */
  function Body(s: Setting, name: string): seq<RcOption> {
    GatherSections(s.options, Prefixes(s.command), name)
  }

  /** Names that some section key carries after a colon; every defined config is one. */
  function SectionNames(options: Options): set<string> {
    set key, i | key in options.Keys && 0 <= i < |key| && key[i] == ':' :: key[i + 1..]
  }

  lemma {:induction false} GatheredIsNamed(options: Options, prefixes: seq<string>, name: string)
    requires GatherSections(options, prefixes, name) != []
    ensures name in SectionNames(options)
  {
    var prefix := prefixes[|prefixes| - 1];
    var key := prefix + ":" + name;
    if RawOptions(options, key) != [] {
      assert key in options.Keys && key[|prefix|] == ':' && key[|prefix| + 1..] == name;
    } else {
      GatheredIsNamed(options, prefixes[..|prefixes| - 1], name);
    }
  }

  // ---- Macro expansion ------------------------------------------------------------

  /** A kept option with the config flags that led to it, outermost first. */
  datatype Kept = Kept(way: seq<RcOption>, option: RcOption)

  /** The conditions on the way to an option, outermost first, its own last. */
  function Gates(way: seq<RcOption>, option: RcOption): seq<Option<string>> {
    if way == [] then [option.condition] else [way[0].condition] + Gates(way[1..], option)
  }

  datatype Expansion = Expansion(kept: seq<Kept>, error: Option<RcError>)

  function Under(flag: RcOption, kept: seq<Kept>): seq<Kept> {
    if kept == [] then []
    else
      var n := |kept| - 1;
      Under(flag, kept[..n]) + [Deeper(flag, kept[n])]
  }

  function Deeper(flag: RcOption, k: Kept): Kept {
    Kept([flag] + k.way, k.option)
  }

  predicate MayBeMissing(s: Setting, name: string, chain: seq<string>) {
    (s.implicitPlatform && chain == [] && name == s.platform) || name in s.skip
  }

  /** Each `--config=` replaced where it stands by the expansion of its body. */
  function Expand(s: Setting, args: seq<RcOption>, chain: seq<string>): Expansion
    decreases SectionNames(s.options) - Elements(chain), 1, |args|
  {
    if args == [] then Expansion([], None)
    else
      var before := Expand(s, args[..|args| - 1], chain);
      if before.error.Some? then before
      else
        var next := ExpandOne(s, args[|args| - 1], chain);
        Expansion(before.kept + next.kept, next.error)
  }

  function ExpandOne(s: Setting, o: RcOption, chain: seq<string>): Expansion
    decreases SectionNames(s.options) - Elements(chain), 0, 0
  {
    if !IsConfig(o) then Expansion([Kept([], o)], None)
    else
      var name := ConfigName(o);
      if name in chain then Expansion([], Some(ConfigCycle(chain + [name])))
      else if Body(s, name) == [] then
        Expansion([], if MayBeMissing(s, name, chain) then None else Some(UndefinedConfig(s.command, name)))
      else
        GatheredIsNamed(s.options, Prefixes(s.command), name);
        assert name in SectionNames(s.options) - Elements(chain);
        assert name !in SectionNames(s.options) - Elements(chain + [name]);
        var inner := Expand(s, Body(s, name), chain + [name]);
        Expansion(Under(o, inner.kept), inner.error)
  }

  /** The option that results: the innermost gate is the one it carries. */
  function Result(k: Kept): RcOption {
    k.option.(condition := Innermost(None, Gates(k.way, k.option)))
  }

  function Results(kept: seq<Kept>): seq<RcOption> {
    if kept == [] then [] else Results(kept[..|kept| - 1]) + [Result(kept[|kept| - 1])]
  }

  lemma {:induction false} ResultsConcat(a: seq<Kept>, b: seq<Kept>)
    ensures Results(a + b) == Results(a) + Results(b)
  {
    if b == [] {
      assert a + b == a;
    } else {
      assert (a + b)[..|a + b| - 1] == a + b[..|b| - 1];
      ResultsConcat(a, b[..|b| - 1]);
    }
  }

  // ---- Passing a gate down --------------------------------------------------------

  function Inheriting(o: RcOption, gate: Option<string>): RcOption {
    o.(condition := Inherit(gate, o.condition))
  }

  /** Options that have no gate of their own take the one given. */
  function InheritAll(args: seq<RcOption>, gate: Option<string>): seq<RcOption> {
    if args == [] then []
    else
      var n := |args| - 1;
      InheritAll(args[..n], gate) + [Inheriting(args[n], gate)]
  }

  lemma {:induction false} UnderConcat(flag: RcOption, a: seq<Kept>, b: seq<Kept>)
    ensures Under(flag, a + b) == Under(flag, a) + Under(flag, b)
  {
    if b == [] {
      assert a + b == a;
    } else {
      var n := |b| - 1;
      assert (a + b)[..|a + b| - 1] == a + b[..n];
      UnderConcat(flag, a, b[..n]);
    }
  }

  lemma {:induction false} UnderInherited(flag: RcOption, own: RcOption, kept: seq<Kept>)
    ensures Results(Under(Inheriting(own, flag.condition), kept)) == Results(Under(flag, Under(own, kept)))
  {
    hide Result;
    if kept != [] {
      var n := |kept| - 1;
      UnderInherited(flag, own, kept[..n]);
      var inner := Deeper(own, kept[n]);
      UnderConcat(flag, Under(own, kept[..n]), [inner]);
      TwoGates(flag, own, kept[n]);
      ResultsConcat(Under(flag, Under(own, kept[..n])), [Deeper(flag, inner)]);
      ResultsConcat(Under(Inheriting(own, flag.condition), kept[..n]),
        [Deeper(Inheriting(own, flag.condition), kept[n])]);
    }
  }

  lemma DeeperGates(flag: RcOption, k: Kept)
    ensures Gates(Deeper(flag, k).way, k.option) == [flag.condition] + Gates(k.way, k.option)
  {
    assert ([flag] + k.way)[1..] == k.way;
  }

  lemma TwoGates(flag: RcOption, own: RcOption, k: Kept)
    ensures Result(Deeper(Inheriting(own, flag.condition), k)) == Result(Deeper(flag, Deeper(own, k)))
    ensures Result(Deeper(flag, Kept([], own))) == Result(Kept([], Inheriting(own, flag.condition)))
  {
    hide Innermost, Gates;
    var inherited, gates := Inheriting(own, flag.condition), Gates(k.way, k.option);
    DeeperGates(inherited, k);
    InnermostStep(None, inherited.condition, gates);
    DeeperGates(flag, Deeper(own, k));
    DeeperGates(own, k);
    InnermostStep(None, flag.condition, [own.condition] + gates);
    InnermostStep(flag.condition, own.condition, gates);
    DeeperGates(flag, Kept([], own));
    LastGateOnly(flag, own);
  }

  lemma LastGateOnly(flag: RcOption, own: RcOption)
    ensures Innermost(None, [flag.condition] + Gates([], own)) ==
      Innermost(None, Gates([], Inheriting(own, flag.condition)))
  {
    InnermostStep(None, flag.condition, [own.condition]);
  }

  /** Handing a flag's gate to every option beforehand is the same as nesting the result
      under the flag. */
  lemma {:induction false} InheritCommutes(s: Setting, args: seq<RcOption>, flag: RcOption, chain: seq<string>)
    ensures var given, plain := Expand(s, InheritAll(args, flag.condition), chain), Expand(s, args, chain);
      given.error == plain.error && Results(given.kept) == Results(Under(flag, plain.kept))
    decreases |args|
  {
    hide ExpandOne, Innermost;
    if args != [] {
      var n := |args| - 1;
      var o := args[n];
      var o' := Inheriting(o, flag.condition);
      InheritCommutes(s, args[..n], flag, chain);
      assert InheritAll(args, flag.condition)[..n] == InheritAll(args[..n], flag.condition) by {
        InheritLength(args[..n], flag.condition);
      }
      var before, before' := Expand(s, args[..n], chain), Expand(s, InheritAll(args[..n], flag.condition), chain);
      if before.error.None? {
        var next, next' := ExpandOne(s, o, chain), ExpandOne(s, o', chain);
        InheritOne(s, o, flag, chain);
        UnderConcat(flag, before.kept, next.kept);
        ResultsConcat(Under(flag, before.kept), Under(flag, next.kept));
        ResultsConcat(before'.kept, next'.kept);
      }
    }
  }

  lemma {:induction false} InheritLength(args: seq<RcOption>, gate: Option<string>)
    ensures |InheritAll(args, gate)| == |args|
  {
    if args != [] {
      InheritLength(args[..|args| - 1], gate);
    }
  }

  lemma InheritOne(s: Setting, o: RcOption, flag: RcOption, chain: seq<string>)
    ensures var next, next' := ExpandOne(s, o, chain), ExpandOne(s, Inheriting(o, flag.condition), chain);
      next'.error == next.error && Results(next'.kept) == Results(Under(flag, next.kept))
  {
    hide Result;
    if !IsConfig(o) {
      TwoGates(flag, o, Kept([], o));
      assert Under(flag, [Kept([], o)]) == [Deeper(flag, Kept([], o))];
    } else if ConfigName(o) !in chain && Body(s, ConfigName(o)) != [] {
      UnderInherited(flag, o, Expand(s, Body(s, ConfigName(o)), chain + [ConfigName(o)]).kept);
    }
  }

  // ---- The expander ---------------------------------------------------------------

  /** The list and the chain that the recursion shares. */
  class ConfigExpander {
    const setting: Setting
    var result: seq<RcOption>
    var ancestorChain: seq<string>

    constructor (setting: Setting)
      ensures this.setting == setting && result == [] && ancestorChain == []
    {
      this.setting := setting;
      result, ancestorChain := [], [];
    }

    /** Emits plain flags in place and expands configs where they stand. The list grows by
        exactly the macro expansion of the arguments, up to the flag that fails if one
        does; the chain comes back unchanged when none does. */
    method ExpandArgs(args: seq<RcOption>) returns (error: Option<RcError>)
      modifies this
      ensures var all := Expand(setting, args, old(ancestorChain));
        error == all.error && result == old(result) + Results(all.kept)
      ensures error.None? ==> ancestorChain == old(ancestorChain)
      decreases SectionNames(setting.options) - Elements(ancestorChain), 1
    {
      hide Expand, ExpandOne;
      NothingExpanded(setting, ancestorChain);
      var i := 0;
      assert args[..0] == [];
      while i < |args|
        invariant 0 <= i <= |args| && ancestorChain == old(ancestorChain)
        invariant Expand(setting, args[..i], ancestorChain).error.None?
        invariant result == old(result) + Results(Expand(setting, args[..i], ancestorChain).kept)
      {
        NextArgument(setting, args, i, ancestorChain);
        error := ExpandArg(args[i]);
        if error.Some? {
          FailsThere(setting, args, i, old(ancestorChain));
          return;
        }
        i := i + 1;
      }
      assert args[..i] == args;
      error := None;
    }

    /** One argument. */
    method ExpandArg(opt: RcOption) returns (error: Option<RcError>)
      modifies this
      ensures var one := ExpandOne(setting, opt, old(ancestorChain));
        error == one.error && result == old(result) + Results(one.kept)
      ensures error.None? ==> ancestorChain == old(ancestorChain)
      decreases SectionNames(setting.options) - Elements(ancestorChain), 0
    {
      hide Result, Results, InheritAll, Under;
      error := None;
      NoResults();
      if IsConfig(opt) {
        var name := ConfigName(opt);
        if name in ancestorChain {
          return Some(ConfigCycle(ancestorChain + [name]));
        }
        var body := GatherOptions(name);
        if body == [] {
          if (setting.implicitPlatform && ancestorChain == [] && name == setting.platform) || name in setting.skip {
            return;
          }
          return Some(UndefinedConfig(setting.command, name));
        }
        var inherited := PassDown(body, opt.condition);
        InheritCommutes(setting, body, opt, ancestorChain + [name]);
        GatheredIsNamed(setting.options, Prefixes(setting.command), name);
        assert name in SectionNames(setting.options) - Elements(ancestorChain);
        assert name !in SectionNames(setting.options) - Elements(ancestorChain + [name]);
        ancestorChain := ancestorChain + [name];
        error := ExpandArgs(inherited);
        if error.None? {
          ancestorChain := ancestorChain[..|ancestorChain| - 1];
        }
      } else {
        result := result + [opt];
        PlainResult(opt);
      }
    }

    /** The sections of a config, from the most general base to the command. */
    method GatherOptions(name: string) returns (body: seq<RcOption>)
      ensures body == Body(setting, name)
    {
      body := [];
      var prefixes, i := Prefixes(setting.command), 0;
      while i < |prefixes|
        invariant 0 <= i <= |prefixes| && body == GatherSections(setting.options, prefixes[..i], name)
      {
        assert prefixes[..i + 1][..i] == prefixes[..i];
        body := body + RawOptions(setting.options, prefixes[i] + ":" + name);
        i := i + 1;
      }
      assert prefixes[..i] == prefixes;
    }

    method PassDown(body: seq<RcOption>, gate: Option<string>) returns (inherited: seq<RcOption>)
      ensures inherited == InheritAll(body, gate)
    {
      inherited := [];
      var i := 0;
      while i < |body|
        invariant 0 <= i <= |body| && inherited == InheritAll(body[..i], gate)
      {
        assert body[..i + 1][..i] == body[..i];
        var o := body[i];
        if o.condition.None? {
          o := o.(condition := gate);
        }
        inherited := inherited + [o];
        i := i + 1;
      }
      assert body[..i] == body;
    }
  }

  lemma PlainResult(o: RcOption)
    ensures Results([Kept([], o)]) == [o]
  {
    assert Innermost(None, [o.condition]) == o.condition;
  }

  lemma NoResults()
    ensures Results([]) == []
  {
  }

  lemma NothingExpanded(s: Setting, chain: seq<string>)
    ensures Expand(s, [], chain) == Expansion([], None)
  {
  }

  lemma NextArgument(s: Setting, args: seq<RcOption>, i: nat, chain: seq<string>)
    requires i < |args| && Expand(s, args[..i], chain).error.None?
    ensures var before, next, after :=
      Expand(s, args[..i], chain), ExpandOne(s, args[i], chain), Expand(s, args[..i + 1], chain);
      after.error == next.error && Results(after.kept) == Results(before.kept) + Results(next.kept)
  {
    assert args[..i + 1][..i] == args[..i];
    ResultsConcat(Expand(s, args[..i], chain).kept, ExpandOne(s, args[i], chain).kept);
  }

  lemma {:induction false} FailsThere(s: Setting, args: seq<RcOption>, i: nat, chain: seq<string>)
    requires i < |args| && Expand(s, args[..i + 1], chain).error.Some?
    ensures Expand(s, args, chain) == Expand(s, args[..i + 1], chain)
    decreases |args|
  {
    if |args| == i + 1 {
      assert args[..i + 1] == args;
    } else {
      assert args[..|args| - 1][..i + 1] == args[..i + 1];
      FailsThere(s, args[..|args| - 1], i, chain);
    }
  }

  // ---- Expanding for a command ------------------------------------------------------

  /** The flag that the platform switch puts in front. */
  function PlatformFlag(platform: string): RcOption {
    RcOption(CONFIG_FLAG + platform, "always", 0, None)
  }

  predicate HasPlatformSwitch(base: seq<RcOption>) {
    exists i :: 0 <= i < |base| && base[i].value == PLATFORM_SWITCH
  }

  function CommandSetting(options: Options, command: string, skip: seq<string>, platform: string,
                          base: seq<RcOption>): Setting
  {
    Setting(options, command, skip, HasPlatformSwitch(base), platform)
  }

  function CommandArgs(base: seq<RcOption>, platform: string): seq<RcOption> {
    if HasPlatformSwitch(base) then [PlatformFlag(platform)] + base else base
  }

  /** All flags of a command, its configs expanded. */
  function ExpandCommand(options: Options, command: string, skip: seq<string>, platform: string,
                         base: seq<RcOption>): Expansion
  {
    Expand(CommandSetting(options, command, skip, platform, base), CommandArgs(base, platform), [])
  }

  method ExpandConfigs(options: Options, command: string, skip: seq<string>, platform: string, base: seq<RcOption>)
      returns (error: Option<RcError>, flags: seq<RcOption>)
    ensures var all := ExpandCommand(options, command, skip, platform, base);
      error == all.error && (error.None? ==> flags == Results(all.kept))
  {
    var expander := new ConfigExpander(CommandSetting(options, command, skip, platform, base));
    error := expander.ExpandArgs(CommandArgs(base, platform));
    flags := if error.None? then expander.result else [];
  }
}
