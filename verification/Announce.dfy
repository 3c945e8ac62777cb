/** The disclosure of a run command's options (`announce` in crates/bazelrc/src/lib.rs): its
    structure of sources, sections and flags. */
module Announcing {
  import opened Prelude
  import opened Rc
  import opened RunCommands
  import opened ConfigOrder
  import Expander
  import Lookups
  import RT = RunTheory

  datatype Section = Section(key: string, options: seq<RcOption>)

  datatype Block = Block(source: nat, direct: seq<Section>, config: seq<Section>)

  function DirectKeys(command: string): seq<string> {
    ["startup", "always"] + (["common"] + CommandAncestors(command) + [command])
  }

  function FromSource(source: nat): RcOption -> bool {
    (o: RcOption) => o.sourceIndex == source
  }

  /** The sections named by `keys`, cut down to one source; empty ones are dropped. */
  function SectionsOf(options: Options, keys: seq<string>, source: nat): seq<Section> {
    if keys == [] then []
    else
      var n := |keys| - 1;
      var own := Filter(FromSource(source), RawOptions(options, keys[n]));
      SectionsOf(options, keys[..n], source) + if own == [] then [] else [Section(keys[n], own)]
  }

  /** The command line's block shows no config sections. */
  function BlockOf(rc: BazelRC, command: string, configKeys: seq<string>, source: nat): Block
    requires source < |rc.sources|
  {
    Block(source, SectionsOf(rc.options, DirectKeys(command), source),
          if rc.sources[source] == COMMAND_LINE then [] else SectionsOf(rc.options, configKeys, source))
  }

  predicate HasConfig(rc: BazelRC, configKeys: seq<string>, source: nat) {
    SectionsOf(rc.options, configKeys, source) != []
  }

  /** The blocks of the first `n` sources; a source with nothing to say has none. */
  function Blocks(rc: BazelRC, command: string, configKeys: seq<string>, n: nat): seq<Block>
    requires n <= |rc.sources|
  {
    if n == 0 then []
    else
      var block := BlockOf(rc, command, configKeys, n - 1);
      Blocks(rc, command, configKeys, n - 1)
      + if block.direct == [] && !HasConfig(rc, configKeys, n - 1) then [] else [block]
  }

  method CollectSections(options: Options, keys: seq<string>, source: nat) returns (sections: seq<Section>)
    ensures sections == SectionsOf(options, keys, source)
  {
    sections := [];
    var i := 0;
    while i < |keys|
      invariant 0 <= i <= |keys| && sections == SectionsOf(options, keys[..i], source)
    {
      assert keys[..i + 1][..i] == keys[..i];
      var own := Filter(FromSource(source), RawOptions(options, keys[i]));
      if |own| > 0 {
        sections := sections + [Section(keys[i], own)];
      }
      i := i + 1;
    }
    assert keys[..i] == keys;
  }

  method Announce(rc: BazelRC, command: string) returns (blocks: seq<Block>, configKeys: seq<string>)
    ensures forall key :: key in configKeys <==> key in rc.options && IsApplicable(command, key)
    ensures InOrder(command, configKeys)
    ensures blocks == Blocks(rc, command, configKeys, |rc.sources|)
  {
    hide InOrder, IsApplicable, SectionsOf;
    var keys := SortedConfigKeys(rc.options, command);
    configKeys := keys;
    blocks := [];
    var source := 0;
    while source < |rc.sources|
      invariant 0 <= source <= |rc.sources| && blocks == Blocks(rc, command, keys, source)
    {
      var direct := CollectSections(rc.options, DirectKeys(command), source);
      var config := CollectSections(rc.options, keys, source);
      if |direct| > 0 || |config| > 0 {
        blocks := blocks + [Block(source, direct, if rc.sources[source] == COMMAND_LINE then [] else config)];
      }
      source := source + 1;
    }
  }

  // ---- The order shown --------------------------------------------------------------------------------

  function Keys(sections: seq<Section>): seq<string> {
    if sections == [] then [] else Keys(sections[..|sections| - 1]) + [sections[|sections| - 1].key]
  }

  lemma {:induction false} KeysAt(sections: seq<Section>)
    ensures |Keys(sections)| == |sections| && forall i :: 0 <= i < |sections| ==> Keys(sections)[i] == sections[i].key
  {
    if sections != [] {
      KeysAt(sections[..|sections| - 1]);
    }
  }

  /** The sections of a source keep the order of the keys they were looked up by. */
  lemma {:induction false} ShownKeysAreSubsequence(options: Options, keys: seq<string>, source: nat)
    ensures IsSubsequence(Keys(SectionsOf(options, keys, source)), keys)
  {
    hide FromSource, RawOptions, Filter, IsSubsequence;
    if keys == [] {
      SubsequenceNothing(options, source);
    } else {
      var front, key := keys[..|keys| - 1], keys[|keys| - 1];
      var before := SectionsOf(options, front, source);
      ShownKeysAreSubsequence(options, front, source);
      assert keys == front + [key];
      if Filter(FromSource(source), RawOptions(options, key)) != [] {
        var added := Section(key, Filter(FromSource(source), RawOptions(options, key)));
        assert (before + [added])[..|before|] == before;
        OneKey(key);
        SubsequenceConcat(Keys(before), front, [key], [key]);
      } else {
        OneKey(key);
        SubsequenceConcat(Keys(before), front, [], [key]);
        assert before + [] == before && Keys(before) + [] == Keys(before);
      }
    }
  }

  lemma SubsequenceNothing(options: Options, source: nat)
    ensures IsSubsequence(Keys(SectionsOf(options, [], source)), [])
  {
  }

  lemma OneKey(key: string)
    ensures IsSubsequence([key], [key]) && IsSubsequence([], [key])
  {
    assert [key][1..] == [];
  }

  lemma {:induction false} SubsequenceInOrder(command: string, sub: seq<string>, keys: seq<string>)
    requires IsSubsequence(sub, keys) && InOrder(command, keys)
    ensures InOrder(command, sub) && forall key :: key in sub ==> key in keys
    decreases |keys|
  {
    hide KeyBefore;
    if sub != [] {
      if sub[0] == keys[0] {
        SubsequenceInOrder(command, sub[1..], keys[1..]);
        forall i, j | 0 <= i < j < |sub| ensures KeyBefore(command, sub[i], sub[j]) {
          if i > 0 {
            assert sub[i] == sub[1..][i - 1] && sub[j] == sub[1..][j - 1];
          } else {
            assert sub[j] in sub[1..] && sub[j] in keys[1..];
            var k :| 0 <= k < |keys[1..]| && keys[1..][k] == sub[j];
            assert keys[k + 1] == sub[j];
          }
        }
        assert forall key :: key in sub ==> key == sub[0] || key in sub[1..];
      } else {
        SubsequenceInOrder(command, sub, keys[1..]);
      }
    }
  }

  /** In every block, the direct sections shown stand in the order of the lookup, behind the
      startup flags. */
  lemma ShownSectionsFollowLookup(rc: BazelRC, command: string, configKeys: seq<string>, source: nat)
    requires source < |rc.sources|
    ensures var shown := Keys(BlockOf(rc, command, configKeys, source).direct);
      && (command in {"test", "run", "clean", "mobile-install", "info", "print_action", "config",
                      "cquery", "aquery"} ==>
        IsSubsequence(shown, ["startup", "always", "common", "build", command]))
      && (command in {"coverage", "fetch", "vendor"} ==>
        IsSubsequence(shown, ["startup", "always", "common", "build", "test", command]))
      && (command !in {"test", "run", "clean", "mobile-install", "info", "print_action", "config", "cquery", "aquery",
                       "coverage", "fetch", "vendor"} ==>
        IsSubsequence(shown, ["startup", "always", "common", command]))
  {
    hide SectionsOf, IsSubsequence, CommandAncestors;
    ShownKeysAreSubsequence(rc.options, DirectKeys(command), source);
    Lookups.Inherits(command);
    DirectKeysAre(command, CommandAncestors(command));
  }

  lemma DirectKeysAre(command: string, between: seq<string>)
    ensures ["startup", "always"] + (["common"] + between + [command]) ==
            ["startup", "always", "common"] + between + [command]
    ensures between == [] ==>
      ["startup", "always", "common"] + between + [command] == ["startup", "always", "common", command]
    ensures between == ["build"] ==>
      ["startup", "always", "common"] + between + [command] == ["startup", "always", "common", "build", command]
    ensures between == ["build", "test"] ==>
      ["startup", "always", "common"] + between + [command] == ["startup", "always", "common", "build", "test", command]
  {
  }

  /** In every block, the config sections shown keep the announced order; those of one
      config stand in the order in which expansion applies them. */
  lemma ShownConfigsFollowExpansion(rc: BazelRC, command: string, configKeys: seq<string>, source: nat, i: nat, j: nat)
    requires source < |rc.sources| && InOrder(command, configKeys)
    requires forall key :: key in configKeys ==> IsApplicable(command, key)
    ensures var config := BlockOf(rc, command, configKeys, source).config;
      && IsSubsequence(Keys(config), configKeys) && InOrder(command, Keys(config))
      && (i < j < |config| && ConfigOf(config[i].key) == ConfigOf(config[j].key) ==>
        var p, q := BaseRank(command, Base(config[i].key)), BaseRank(command, Base(config[j].key));
        && p < q < |Expander.Prefixes(command)|
        && config[i].key == Expander.Prefixes(command)[p] + ":" + ConfigOf(config[i].key)
        && config[j].key == Expander.Prefixes(command)[q] + ":" + ConfigOf(config[j].key))
  {
    hide SectionsOf, InOrder, IsApplicable, BaseRank, Base, ConfigOf, Expander.Prefixes;
    var config := BlockOf(rc, command, configKeys, source).config;
    ShownKeysAreSubsequence(rc.options, configKeys, source);
    SubsequenceInOrder(command, Keys(config), configKeys);
    KeysAt(config);
    if i < j < |config| && ConfigOf(config[i].key) == ConfigOf(config[j].key) {
      SameConfigFollowsExpansion(command, Keys(config), i, j);
    }
  }

  // ---- Everything is announced once -------------------------------------------------------------------

  function Listed(sections: seq<Section>): seq<RcOption> {
    if sections == [] then [] else Listed(sections[..|sections| - 1]) + sections[|sections| - 1].options
  }

  function ListedDirect(blocks: seq<Block>): seq<RcOption> {
    if blocks == [] then [] else ListedDirect(blocks[..|blocks| - 1]) + Listed(blocks[|blocks| - 1].direct)
  }

  function ListedConfig(blocks: seq<Block>): seq<RcOption> {
    if blocks == [] then [] else ListedConfig(blocks[..|blocks| - 1]) + Listed(blocks[|blocks| - 1].config)
  }

  /** A source's sections list, in order, that source's options of the keys given. */
  lemma {:induction false} SectionsListed(options: Options, keys: seq<string>, source: nat)
    ensures Listed(SectionsOf(options, keys, source)) ==
      Filter(FromSource(source), Flatten(NamedSections(options, keys)))
  {
    hide NamedSections, Flatten, FromSource, RawOptions;
    if keys == [] {
      NothingNamed(options);
    } else {
      var front, key := keys[..|keys| - 1], keys[|keys| - 1];
      assert keys == front + [key];
      SectionsListed(options, front, source);
      RT.NamedSnoc(options, front, key);
      FilterConcat(FromSource(source), Flatten(NamedSections(options, front)), RawOptions(options, key));
      var own := Filter(FromSource(source), RawOptions(options, key));
      var before := SectionsOf(options, front, source);
      if own != [] {
        assert (before + [Section(key, own)])[..|before|] == before;
      } else {
        assert before + [] == before && Listed(before) + own == Listed(before);
      }
    }
  }

  lemma NothingNamed(options: Options)
    ensures Flatten(NamedSections(options, [])) == []
  {
  }

  lemma NextBlock(rc: BazelRC, command: string, configKeys: seq<string>, n: nat)
    requires 0 < n <= |rc.sources|
    ensures var before, after := Blocks(rc, command, configKeys, n - 1), Blocks(rc, command, configKeys, n);
      && ListedDirect(after) == ListedDirect(before) + Listed(SectionsOf(rc.options, DirectKeys(command), n - 1))
      && ListedConfig(after) == ListedConfig(before) +
        if rc.sources[n - 1] == COMMAND_LINE then [] else Listed(SectionsOf(rc.options, configKeys, n - 1))
  {
    hide SectionsOf, DirectKeys, Listed;
    var before, block := Blocks(rc, command, configKeys, n - 1), BlockOf(rc, command, configKeys, n - 1);
    NothingListed();
    if block.direct != [] || HasConfig(rc, configKeys, n - 1) {
      assert (before + [block])[..|before|] == before;
    } else {
      assert before + [] == before;
    }
  }

  lemma NothingListed()
    ensures Listed([]) == []
  {
  }

  /** How often a source's sections list an option. */
  lemma SourceCounts(options: Options, keys: seq<string>, source: nat, o: RcOption)
    ensures multiset(Listed(SectionsOf(options, keys, source)))[o] ==
      if o.sourceIndex == source then multiset(Flatten(NamedSections(options, keys)))[o] else 0
  {
    hide Filter, SectionsOf, Listed, NamedSections, Flatten;
    SectionsListed(options, keys, source);
    FilterCounts(FromSource(source), Flatten(NamedSections(options, keys)), o);
  }

  /** An option is listed as often as it occurs, once its source has had its turn. */
  lemma {:induction false} DirectCounts(rc: BazelRC, command: string, configKeys: seq<string>, n: nat, o: RcOption)
    requires n <= |rc.sources|
    ensures multiset(ListedDirect(Blocks(rc, command, configKeys, n)))[o] ==
      if o.sourceIndex < n then multiset(Flatten(NamedSections(rc.options, DirectKeys(command))))[o] else 0
  {
    hide SectionsOf, DirectKeys, NamedSections, Flatten, Listed, ListedDirect, Blocks;
    if n > 0 {
      DirectCounts(rc, command, configKeys, n - 1, o);
      NextBlock(rc, command, configKeys, n);
      SourceCounts(rc.options, DirectKeys(command), n - 1, o);
    } else {
      NoBlocks(rc, command, configKeys);
    }
  }

  lemma NoBlocks(rc: BazelRC, command: string, configKeys: seq<string>)
    ensures ListedDirect(Blocks(rc, command, configKeys, 0)) == []
      && ListedConfig(Blocks(rc, command, configKeys, 0)) == []
  {
  }

  lemma {:induction false} ConfigCounts(rc: BazelRC, command: string, configKeys: seq<string>, n: nat, o: RcOption)
    requires n <= |rc.sources|
    ensures multiset(ListedConfig(Blocks(rc, command, configKeys, n)))[o] ==
      if o.sourceIndex < n && rc.sources[o.sourceIndex] != COMMAND_LINE
      then multiset(Flatten(NamedSections(rc.options, configKeys)))[o] else 0
  {
    hide SectionsOf, DirectKeys, NamedSections, Flatten, Listed, ListedConfig, Blocks;
    if n > 0 {
      ConfigCounts(rc, command, configKeys, n - 1, o);
      NextBlock(rc, command, configKeys, n);
      SourceCounts(rc.options, configKeys, n - 1, o);
    } else {
      NoBlocks(rc, command, configKeys);
    }
  }

  // ---- Against the lookup by command ------------------------------------------------------------------

  /** The lookup by command is the direct sections without `startup`, in another order. */
  lemma LookupIsDirectSections(rc: BazelRC, command: string)
    ensures multiset(Flatten(NamedSections(rc.options, DirectKeys(command)))) ==
            multiset(RawOptions(rc.options, "startup")) + multiset(OptionsFor(rc, command))
  {
    hide RawOptions, CommandAncestors, FromCommandLine, FromFiles, Filter;
    var rest := ["common"] + CommandAncestors(command) + [command];
    var all := RawOptions(rc.options, "always");
    TwoSections(rc.options, "startup", "always", rest);
    RT.LookupEndsInCommandLine(rc, command);
    FirstSection(FileFlags(rc), NamedSections(rc.options, rest));
    forall o ensures multiset(all)[o] == multiset(FileFlags(rc))[o] + multiset(CommandLineFlags(rc))[o] {
      FilterCounts(FromCommandLine(rc.sources), all, o);
      FilterCounts(FromFiles(rc.sources), all, o);
      OneOrTheOther(rc.sources, o);
    }
    assert multiset(all) == multiset(FileFlags(rc)) + multiset(CommandLineFlags(rc));
  }

  lemma OneOrTheOther(sources: seq<string>, o: RcOption)
    ensures FromCommandLine(sources)(o) <==> !FromFiles(sources)(o)
  {
  }

  lemma FirstSection<T>(part: seq<T>, parts: seq<seq<T>>)
    ensures Flatten([part] + parts) == part + Flatten(parts)
  {
    assert ([part] + parts)[1..] == parts;
  }

  lemma TwoSections(options: Options, a: string, b: string, rest: seq<string>)
    ensures Flatten(NamedSections(options, [a, b] + rest)) ==
      RawOptions(options, a) + (RawOptions(options, b) + Flatten(NamedSections(options, rest)))
  {
    hide RawOptions;
    assert ([a, b] + rest)[1..] == [b] + rest && ([b] + rest)[1..] == rest;
  }

  lemma {:induction false} NamedCounts(options: Options, keys: seq<string>, o: RcOption)
    requires Distinct(keys)
    requires forall key, x :: x in RawOptions(options, key) ==> x.command == key
    ensures multiset(Flatten(NamedSections(options, keys)))[o] ==
      if o.command in keys then multiset(RawOptions(options, o.command))[o] else 0
  {
    hide RawOptions;
    if keys != [] {
      var rest := keys[1..];
      assert forall i :: 0 <= i < |rest| ==> rest[i] == keys[i + 1];
      NamedCounts(options, rest, o);
      assert NamedSections(options, keys)[1..] == NamedSections(options, rest);
      assert keys == [keys[0]] + rest;
      if o.command == keys[0] {
        assert o.command !in rest;
      } else {
        assert o !in RawOptions(options, keys[0]);
      }
    }
  }

  lemma OrderedKeysAreDistinct(command: string, keys: seq<string>)
    requires InOrder(command, keys) && forall key :: key in keys ==> IsApplicable(command, key)
    ensures Distinct(keys)
  {
    hide IsApplicable, KeyBefore;
    forall i, j | 0 <= i < j < |keys| ensures keys[i] != keys[j] {
      assert keys[i] in keys;
      KeysAreComparable(command, keys[i], keys[i]);
    }
  }

  /** The announcement lists every startup option, every option of the lookup by command and
      every option of every applicable config section exactly as often as it occurs, and
      nothing else. */
  lemma EverythingIsAnnouncedOnce(rc: BazelRC, command: string, configKeys: seq<string>, o: RcOption)
    requires RT.ConsistentRC(rc) && RT.CommandLineInAlways(rc)
    requires InOrder(command, configKeys)
    requires forall key :: key in configKeys <==> key in rc.options && IsApplicable(command, key)
    ensures var blocks := Blocks(rc, command, configKeys, |rc.sources|);
      && multiset(ListedDirect(blocks))[o] ==
        multiset(RawOptions(rc.options, "startup"))[o] + multiset(OptionsFor(rc, command))[o]
      && multiset(ListedConfig(blocks))[o] ==
        if IsApplicable(command, o.command) then multiset(RawOptions(rc.options, o.command))[o] else 0
  {
    hide Blocks, ListedDirect, ListedConfig, OptionsFor, Flatten, NamedSections, DirectKeys, InOrder, IsApplicable;
    DirectCounts(rc, command, configKeys, |rc.sources|, o);
    ConfigCounts(rc, command, configKeys, |rc.sources|, o);
    LookupIsDirectSections(rc, command);
    OrderedKeysAreDistinct(command, configKeys);
    forall key, x | x in RawOptions(rc.options, key) ensures x.command == key {
      RT.OptionInRange(rc, key, x);
    }
    NamedCounts(rc.options, configKeys, o);
    AlwaysIsNoConfig(command);
    NotInRange(rc, command, o);
    if o.sourceIndex >= |rc.sources| {
      OutOfRange(rc, DirectKeys(command), o);
      OutOfRange(rc, configKeys, o);
    }
  }

  /** What is out of range or from the command line stands in no config section. */
  lemma NotInRange(rc: BazelRC, command: string, o: RcOption)
    requires RT.ConsistentRC(rc) && RT.CommandLineInAlways(rc)
    ensures IsApplicable(command, o.command) && (o.sourceIndex < |rc.sources| ==> IsCommandLine(rc.sources, o)) ==>
      multiset(RawOptions(rc.options, o.command))[o] == 0
    ensures o.command !in rc.options ==> multiset(RawOptions(rc.options, o.command))[o] == 0
  {
    hide IsApplicable;
    AlwaysIsNoConfig(command);
    if o in RawOptions(rc.options, o.command) {
      RT.OptionInRange(rc, o.command, o);
      assert IsCommandLine(rc.sources, o) ==> o.command == "always";
    }
  }

  lemma AlwaysIsNoConfig(command: string)
    ensures !IsApplicable(command, "always")
  {
    assert forall i :: 0 <= i < |"always"| ==> "always"[i] != ':';
  }

  lemma {:induction false} OutOfRange(rc: BazelRC, keys: seq<string>, o: RcOption)
    requires forall key, i :: key in rc.options && 0 <= i < |rc.options[key]| ==>
      rc.options[key][i].sourceIndex < |rc.sources|
    requires o.sourceIndex >= |rc.sources|
    ensures multiset(Flatten(NamedSections(rc.options, keys)))[o] == 0
  {
    if keys != [] {
      OutOfRange(rc, keys[1..], o);
    }
  }

  ghost predicate Faithful(section: Section, options: Options, source: nat) {
    && section.options != []
    && forall o :: o in section.options ==> o.sourceIndex == source && o in RawOptions(options, section.key)
  }

  lemma {:induction false} SectionsAreFaithful(options: Options, keys: seq<string>, source: nat)
    ensures forall i :: 0 <= i < |SectionsOf(options, keys, source)| ==>
      Faithful(SectionsOf(options, keys, source)[i], options, source)
  {
    hide RawOptions;
    if keys != [] {
      SectionsAreFaithful(options, keys[..|keys| - 1], source);
    }
  }

  ghost predicate FaithfulBlock(block: Block, options: Options) {
    && (forall i :: 0 <= i < |block.direct| ==> Faithful(block.direct[i], options, block.source))
    && (forall i :: 0 <= i < |block.config| ==> Faithful(block.config[i], options, block.source))
  }

  lemma BlockIsFaithful(rc: BazelRC, command: string, configKeys: seq<string>, source: nat)
    requires source < |rc.sources|
    ensures FaithfulBlock(BlockOf(rc, command, configKeys, source), rc.options)
  {
    hide SectionsOf, DirectKeys, Faithful;
    SectionsAreFaithful(rc.options, DirectKeys(command), source);
    SectionsAreFaithful(rc.options, configKeys, source);
  }

  /** Blocks come in the order of the sources, each faithful to its own. */
  ghost predicate InSourceOrder(blocks: seq<Block>, options: Options, n: nat) {
    && (forall b :: 0 <= b < |blocks| ==> blocks[b].source < n && FaithfulBlock(blocks[b], options))
    && forall b, c :: 0 <= b < c < |blocks| ==> blocks[b].source < blocks[c].source
  }

  lemma OneMoreInOrder(blocks: seq<Block>, block: Block, options: Options, n: nat)
    requires InSourceOrder(blocks, options, n) && block.source == n && FaithfulBlock(block, options)
    ensures InSourceOrder(blocks, options, n + 1) && InSourceOrder(blocks + [block], options, n + 1)
  {
    hide FaithfulBlock;
  }

  /** Each option stands under its own source and its own section. */
  lemma {:induction false} BlocksAreFaithful(rc: BazelRC, command: string, configKeys: seq<string>, n: nat)
    requires n <= |rc.sources|
    ensures InSourceOrder(Blocks(rc, command, configKeys, n), rc.options, n)
  {
    hide BlockOf, FaithfulBlock, HasConfig;
    if n > 0 {
      BlocksAreFaithful(rc, command, configKeys, n - 1);
      BlockIsFaithful(rc, command, configKeys, n - 1);
      BlockSource(rc, command, configKeys, n - 1);
      var before, block := Blocks(rc, command, configKeys, n - 1), BlockOf(rc, command, configKeys, n - 1);
      OneMoreInOrder(before, block, rc.options, n - 1);
      assert before + [] == before;
    }
  }

  lemma BlockSource(rc: BazelRC, command: string, configKeys: seq<string>, source: nat)
    requires source < |rc.sources|
    ensures BlockOf(rc, command, configKeys, source).source == source
  {
  }
}
