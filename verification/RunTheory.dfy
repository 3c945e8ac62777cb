/** Overlaying as an algebra, what it does to every lookup, and the promise that the
    overlay's command line wins. */
module RunTheory {
  import opened Prelude
  import opened Rc
  import opened RunCommands
  import opened FlagValues
  import E = Expander
  import ET = ExpanderTheory
  import PT = ParserTheory
  import Parser

  // ---- A monoid -------------------------------------------------------------------------

  lemma {:induction false} RebaseConcat(a: seq<RcOption>, b: seq<RcOption>, offset: nat)
    ensures Rebase(a + b, offset) == Rebase(a, offset) + Rebase(b, offset)
  {
    if b == [] {
      assert a + b == a;
    } else {
      assert (a + b)[..|a + b| - 1] == a + b[..|b| - 1];
      RebaseConcat(a, b[..|b| - 1], offset);
    }
  }

  lemma {:induction false} RebaseTwice(opts: seq<RcOption>, n: nat, m: nat)
    ensures Rebase(Rebase(opts, n), m) == Rebase(opts, n + m)
  {
    if opts != [] {
      var before := opts[..|opts| - 1];
      RebaseTwice(before, n, m);
      var last := opts[|opts| - 1].(sourceIndex := opts[|opts| - 1].sourceIndex + n);
      RebaseConcat(Rebase(before, n), [last], m);
      assert Rebase([last], m) == [last.(sourceIndex := last.sourceIndex + m)];
    }
  }

  lemma {:induction false} RebaseNothing(opts: seq<RcOption>)
    ensures Rebase(opts, 0) == opts
  {
    if opts != [] {
      RebaseNothing(opts[..|opts| - 1]);
    }
  }

  lemma {:induction false} RebaseAt(opts: seq<RcOption>, offset: nat)
    ensures |Rebase(opts, offset)| == |opts|
    ensures forall i :: 0 <= i < |opts| ==>
      Rebase(opts, offset)[i] == opts[i].(sourceIndex := opts[i].sourceIndex + offset)
  {
    if opts != [] {
      RebaseAt(opts[..|opts| - 1], offset);
    }
  }

  lemma {:induction false} AddMissingMembers(acc: seq<string>, more: seq<string>)
    ensures forall x :: x in AddMissing(acc, more) <==> x in acc || x in more
  {
    if more != [] {
      AddMissingMembers(acc, more[..|more| - 1]);
      assert more == more[..|more| - 1] + [more[|more| - 1]];
    }
  }

  lemma {:induction false} AddMissingAssociates(a: seq<string>, b: seq<string>, c: seq<string>)
    ensures AddMissing(AddMissing(a, b), c) == AddMissing(a, AddMissing(b, c))
  {
    if c != [] {
      var rest := c[..|c| - 1];
      AddMissingAssociates(a, b, rest);
      AddMissingMembers(AddMissing(a, b), rest);
      AddMissingMembers(a, b);
      AddMissingMembers(b, rest);
      AddMissingMembers(a, AddMissing(b, rest));
    }
  }

  lemma {:induction false} AddMissingToNothing(more: seq<string>)
    ensures Distinct(AddMissing([], more))
    ensures AddMissing([], more) == more <==> Distinct(more)
  {
    if more != [] {
      var n := |more| - 1;
      AddMissingToNothing(more[..n]);
      AddMissingMembers([], more[..n]);
      if Distinct(more) {
        assert more[n] !in more[..n];
      }
    }
  }

  /** What one section holds after overlaying. */
  lemma MergedSection(a: BazelRC, b: BazelRC, key: string)
    ensures RawOptions(Merge(a, b).options, key) ==
            RawOptions(a.options, key) + Rebase(RawOptions(b.options, key), |a.sources|)
    ensures key in Merge(a, b).options <==> key in a.options || key in b.options
  {
  }

  lemma SameSections(x: Options, y: Options)
    requires forall key :: (key in x <==> key in y) && RawOptions(x, key) == RawOptions(y, key)
    ensures x == y
  {
    assert x.Keys == y.Keys;
    forall key | key in x ensures x[key] == y[key] {
      assert RawOptions(x, key) == RawOptions(y, key);
    }
  }

  lemma MergedSources(a: BazelRC, b: BazelRC)
    ensures Merge(a, b).sources == a.sources + b.sources
  {
  }

  lemma MergeAssociatesAt(a: BazelRC, b: BazelRC, c: BazelRC, key: string)
    ensures var left, right := Merge(Merge(a, b), c).options, Merge(a, Merge(b, c)).options;
      (key in left <==> key in right) && RawOptions(left, key) == RawOptions(right, key)
  {
    hide Merge, Rebase, RawOptions;
    MergedSection(a, b, key);
    MergedSection(b, c, key);
    MergedSection(Merge(a, b), c, key);
    MergedSection(a, Merge(b, c), key);
    MergedSources(a, b);
    var x, y, z := RawOptions(a.options, key), RawOptions(b.options, key), RawOptions(c.options, key);
    RebaseConcat(y, Rebase(z, |b.sources|), |a.sources|);
    RebaseTwice(z, |b.sources|, |a.sources|);
    AppendAssociates(x, Rebase(y, |a.sources|), Rebase(z, |a.sources| + |b.sources|));
  }

  lemma AppendAssociates<T>(a: seq<T>, b: seq<T>, c: seq<T>)
    ensures (a + b) + c == a + (b + c)
  {
  }

  lemma MergeAssociates(a: BazelRC, b: BazelRC, c: BazelRC)
    ensures Merge(Merge(a, b), c) == Merge(a, Merge(b, c))
  {
    hide OverlayOptions, RawOptions, AddMissing;
    var left, right := Merge(Merge(a, b), c), Merge(a, Merge(b, c));
    forall key
      ensures (key in left.options <==> key in right.options)
        && RawOptions(left.options, key) == RawOptions(right.options, key)
    {
      MergeAssociatesAt(a, b, c, key);
    }
    SameSections(left.options, right.options);
    AddMissingAssociates(a.skip, b.skip, c.skip);
    AppendAssociates(a.sources, b.sources, c.sources);
    AppendAssociates(a.startup, b.startup, c.startup);
  }

  lemma OverlayBlank(a: BazelRC, key: string)
    ensures var right := Merge(a, BLANK).options;
      (key in right <==> key in a.options) && RawOptions(right, key) == RawOptions(a.options, key)
    ensures var left := Merge(BLANK, a).options;
      (key in left <==> key in a.options) && RawOptions(left, key) == RawOptions(a.options, key)
  {
    hide Merge, Rebase;
    MergedSection(a, BLANK, key);
    MergedSection(BLANK, a, key);
    RebaseNothing(RawOptions(a.options, key));
    RebaseNone(|a.sources|);
  }

  lemma RebaseNone(offset: nat)
    ensures Rebase([], offset) == []
  {
  }

  /** The blank run command is neutral on the right, and on the left exactly for run
      commands that name no config to skip twice. */
  lemma BlankIsNeutral(a: BazelRC)
    ensures Merge(a, BLANK) == a
    ensures Merge(BLANK, a) == a <==> Distinct(a.skip)
    ensures Merge(BLANK, a) == a.(skip := AddMissing([], a.skip))
  {
    hide OverlayOptions, RawOptions, Distinct;
    var right, left := Merge(a, BLANK), Merge(BLANK, a);
    forall key
      ensures (key in right.options <==> key in a.options)
        && RawOptions(right.options, key) == RawOptions(a.options, key)
      ensures (key in left.options <==> key in a.options) && RawOptions(left.options, key) == RawOptions(a.options, key)
    {
      OverlayBlank(a, key);
    }
    SameSections(right.options, a.options);
    SameSections(left.options, a.options);
    AddMissingToNothing(a.skip);
  }

  // ---- Sources ----------------------------------------------------------------------------

  ghost predicate ConsistentRC(rc: BazelRC) {
    PT.Consistent(rc.options, rc.sources)
  }

  /** The option of an overlaid section at `i`, which came from `b` when `a`'s are used up. */
  lemma MergedOption(a: BazelRC, b: BazelRC, key: string, i: nat)
    requires i < |RawOptions(Merge(a, b).options, key)|
    ensures var mine, theirs := RawOptions(a.options, key), RawOptions(b.options, key);
      var o := RawOptions(Merge(a, b).options, key)[i];
      && i < |mine| + |theirs|
      && (i < |mine| ==> o == mine[i])
      && (i >= |mine| ==> o == theirs[i - |mine|].(sourceIndex := theirs[i - |mine|].sourceIndex + |a.sources|))
  {
    hide Merge, Rebase, RawOptions;
    MergedSection(a, b, key);
    RebaseAt(RawOptions(b.options, key), |a.sources|);
  }

  lemma MergedOptionIsConsistent(a: BazelRC, b: BazelRC, key: string, i: nat)
    requires ConsistentRC(a) && ConsistentRC(b) && i < |RawOptions(Merge(a, b).options, key)|
    ensures var o := RawOptions(Merge(a, b).options, key)[i];
      o.command == key && o.sourceIndex < |Merge(a, b).sources|
  {
    hide Merge;
    MergedOption(a, b, key, i);
    MergedSources(a, b);
  }

  lemma MergeKeepsConsistent(a: BazelRC, b: BazelRC)
    requires ConsistentRC(a) && ConsistentRC(b)
    ensures ConsistentRC(Merge(a, b))
  {
    hide Merge;
    var m := Merge(a, b);
    forall key, i | key in m.options && 0 <= i < |m.options[key]|
      ensures m.options[key][i].command == key && m.options[key][i].sourceIndex < |m.sources|
    {
      MergedOptionIsConsistent(a, b, key, i);
    }
  }

  /** Overlaying keeps each option's text, section and gate, and the path it came from. */
  lemma MergeKeepsSources(a: BazelRC, b: BazelRC, key: string, i: nat)
    requires ConsistentRC(a) && ConsistentRC(b)
    ensures ConsistentRC(Merge(a, b))
    ensures |RawOptions(Merge(a, b).options, key)| == |RawOptions(a.options, key)| + |RawOptions(b.options, key)|
    ensures i < |RawOptions(a.options, key)| ==>
      var o, o' := RawOptions(a.options, key)[i], RawOptions(Merge(a, b).options, key)[i];
      o' == o && Merge(a, b).sources[o'.sourceIndex] == a.sources[o.sourceIndex]
    ensures i < |RawOptions(b.options, key)| ==>
      var o, o' := RawOptions(b.options, key)[i],
        RawOptions(Merge(a, b).options, key)[|RawOptions(a.options, key)| + i];
      o'.value == o.value && o'.command == o.command && o'.condition == o.condition
      && Merge(a, b).sources[o'.sourceIndex] == b.sources[o.sourceIndex]
  {
    hide Merge;
    MergeKeepsConsistent(a, b);
    MergedSources(a, b);
    MergedSection(a, b, key);
    RebaseAt(RawOptions(b.options, key), |a.sources|);
  }

  // ---- Lookup ---------------------------------------------------------------------------

  lemma RebaseSnoc(s: seq<RcOption>, o: RcOption, offset: nat)
    ensures Rebase(s + [o], offset) == Rebase(s, offset) + [o.(sourceIndex := o.sourceIndex + offset)]
  {
    assert (s + [o])[..|s|] == s;
  }

  lemma {:induction false} RebaseFilter(opts: seq<RcOption>, offset: nat, p: RcOption -> bool, q: RcOption -> bool)
    requires forall i :: 0 <= i < |opts| ==> p(opts[i].(sourceIndex := opts[i].sourceIndex + offset)) == q(opts[i])
    ensures Filter(p, Rebase(opts, offset)) == Rebase(Filter(q, opts), offset)
  {
    hide Filter, Rebase;
    if opts == [] {
      RebaseNone(offset);
      NoneFilter(p, []);
      NoneFilter(q, []);
    } else {
      var n := |opts| - 1;
      assert opts == opts[..n] + [opts[n]];
      RebaseFilter(opts[..n], offset, p, q);
      RebaseSnoc(opts[..n], opts[n], offset);
      FilterSnoc(p, Rebase(opts[..n], offset), opts[n].(sourceIndex := opts[n].sourceIndex + offset));
      FilterSnoc(q, opts[..n], opts[n]);
      if q(opts[n]) {
        RebaseSnoc(Filter(q, opts[..n]), opts[n], offset);
      } else {
        assert Filter(q, opts) == Filter(q, opts[..n]);
      }
    }
  }

  /** Further sources do not change where options in range come from. */
  lemma MoreSources(sources: seq<string>, more: seq<string>, opts: seq<RcOption>)
    requires forall o :: o in opts ==> o.sourceIndex < |sources|
    ensures Filter(FromCommandLine(sources + more), opts) == Filter(FromCommandLine(sources), opts)
    ensures Filter(FromFiles(sources + more), opts) == Filter(FromFiles(sources), opts)
  {
    FiltersAgree(FromCommandLine(sources + more), FromCommandLine(sources), opts);
    FiltersAgree(FromFiles(sources + more), FromFiles(sources), opts);
  }

  lemma RebasedSources(sources: seq<string>, more: seq<string>, opts: seq<RcOption>)
    requires forall o :: o in opts ==> o.sourceIndex < |more|
    ensures Filter(FromCommandLine(sources + more), Rebase(opts, |sources|)) ==
      Rebase(Filter(FromCommandLine(more), opts), |sources|)
    ensures Filter(FromFiles(sources + more), Rebase(opts, |sources|)) ==
      Rebase(Filter(FromFiles(more), opts), |sources|)
  {
    hide Filter, Rebase;
    RebaseFilter(opts, |sources|, FromCommandLine(sources + more), FromCommandLine(more));
    RebaseFilter(opts, |sources|, FromFiles(sources + more), FromFiles(more));
  }

  lemma AlwaysInRange(rc: BazelRC)
    requires ConsistentRC(rc)
    ensures forall o :: o in RawOptions(rc.options, "always") ==> o.sourceIndex < |rc.sources|
  {
  }

  /** Command-line flags stay command-line flags, file flags file flags. */
  lemma MergedAlways(a: BazelRC, b: BazelRC)
    requires ConsistentRC(a) && ConsistentRC(b)
    ensures CommandLineFlags(Merge(a, b)) == CommandLineFlags(a) + Rebase(CommandLineFlags(b), |a.sources|)
    ensures FileFlags(Merge(a, b)) == FileFlags(a) + Rebase(FileFlags(b), |a.sources|)
  {
    hide Filter, Rebase, Merge, RawOptions, FromCommandLine, FromFiles, ConsistentRC;
    var sources, x, y := a.sources + b.sources, RawOptions(a.options, "always"), RawOptions(b.options, "always");
    MergedSection(a, b, "always");
    MergedSources(a, b);
    AlwaysInRange(a);
    AlwaysInRange(b);
    FilterConcat(FromCommandLine(sources), x, Rebase(y, |a.sources|));
    FilterConcat(FromFiles(sources), x, Rebase(y, |a.sources|));
    MoreSources(a.sources, b.sources, x);
    RebasedSources(a.sources, b.sources, y);
  }

  /** Section by section, the overlay's options follow. */
  ghost predicate Interleaves(all: seq<seq<RcOption>>, first: seq<seq<RcOption>>, second: seq<seq<RcOption>>,
                              offset: nat)
  {
    && |all| == |first| == |second|
    && forall i :: 0 <= i < |all| ==> all[i] == first[i] + Rebase(second[i], offset)
  }

  lemma {:induction false} NamedSectionsInterleave(a: BazelRC, b: BazelRC, keys: seq<string>)
    ensures Interleaves(NamedSections(Merge(a, b).options, keys), NamedSections(a.options, keys),
      NamedSections(b.options, keys), |a.sources|)
  {
    hide Merge, Rebase, RawOptions;
    if keys != [] {
      NamedSectionsInterleave(a, b, keys[1..]);
      MergedSection(a, b, keys[0]);
    }
  }

  /** For every command, lookup in an overlay interleaves the two lookups section by
      section; both inputs' command-line flags form the last section. */
  lemma MergeInterleavesSections(a: BazelRC, b: BazelRC, command: string)
    requires ConsistentRC(a) && ConsistentRC(b)
    ensures Interleaves(Sections(Merge(a, b), command), Sections(a, command), Sections(b, command), |a.sources|)
    ensures Sections(a, command)[|Sections(a, command)| - 1] == CommandLineFlags(a)
  {
    hide Merge, Rebase, CommandLineFlags, FileFlags, CommandAncestors, NamedSections, ConsistentRC;
    MergedAlways(a, b);
    NamedSectionsInterleave(a, b, ["common"] + CommandAncestors(command) + [command]);
  }

  lemma LookupEndsInCommandLine(rc: BazelRC, command: string)
    ensures OptionsFor(rc, command) ==
      Flatten([FileFlags(rc)] + NamedSections(rc.options, ["common"] + CommandAncestors(command) + [command])) +
        CommandLineFlags(rc)
  {
    hide FileFlags, CommandLineFlags, NamedSections, CommandAncestors;
    var parts := [FileFlags(rc)] + NamedSections(rc.options, ["common"] + CommandAncestors(command) + [command]);
    FlattenSnoc(parts, CommandLineFlags(rc));
  }

  // ---- The overlay's command line wins --------------------------------------------------

  /** Flags without gates that ask for no config. */
  predicate PlainFlags(opts: seq<RcOption>) {
    forall i :: 0 <= i < |opts| ==> opts[i].condition.None? && !E.IsConfig(opts[i])
  }

  lemma PlainFlagKept(s: E.Setting, o: RcOption, chain: seq<string>)
    requires o.condition.None? && !E.IsConfig(o)
    ensures E.ExpandOne(s, o, chain) == E.Expansion([E.Kept([], o)], None)
    ensures E.Results([E.Kept([], o)]) == [o]
  {
    assert Innermost(None, [None]) == None;
  }

  lemma {:induction false} PlainFlagsExpandToThemselves(s: E.Setting, opts: seq<RcOption>, chain: seq<string>)
    requires PlainFlags(opts)
    ensures E.Expand(s, opts, chain).error.None? && E.Results(E.Expand(s, opts, chain).kept) == opts
  {
    hide E.ExpandOne, E.Results, E.IsConfig;
    if opts != [] {
      var n := |opts| - 1;
      PlainFlagsExpandToThemselves(s, opts[..n], chain);
      PlainFlagKept(s, opts[n], chain);
      E.ResultsConcat(E.Expand(s, opts[..n], chain).kept, [E.Kept([], opts[n])]);
    } else {
      E.NoResults();
    }
  }

  lemma {:induction false} AdmitConcat(semver: Semver, version: Option<string>, a: seq<RcOption>, b: seq<RcOption>)
    ensures var first := Admit(semver, version, a);
      Admit(semver, version, a + b) ==
      if first.Applies? && Admit(semver, version, b).Applies? then
        Applies(first.options + Admit(semver, version, b).options)
      else if first.Applies? then Admit(semver, version, b)
      else first
  {
    if b == [] {
      assert a + b == a;
    } else {
      assert (a + b)[..|a + b| - 1] == a + b[..|b| - 1];
      AdmitConcat(semver, version, a, b[..|b| - 1]);
    }
  }

  /** Whatever stands before them, plain trailing options come through to the end. */
  lemma PlainTailApplies(s: E.Setting, before: seq<RcOption>, tail: seq<RcOption>, semver: Semver,
                         version: Option<string>)
      returns (front: seq<RcOption>)
    requires PlainFlags(tail)
    requires var all := E.Expand(s, before + tail, []);
      all.error.None? && Admit(semver, version, E.Results(all.kept)).Applies?
    ensures Admit(semver, version, E.Results(E.Expand(s, before + tail, []).kept)).options == front + tail
  {
    hide E.Expand, Admit;
    ET.ExpandConcat(s, before, tail, []);
    PlainFlagsExpandToThemselves(s, tail, []);
    var left, right := E.Expand(s, before, []), E.Expand(s, tail, []);
    E.ResultsConcat(left.kept, right.kept);
    AdmitConcat(semver, version, E.Results(left.kept), tail);
    UngatedAdmitted(semver, version, tail);
    front := Admit(semver, version, E.Results(left.kept)).options;
  }

  lemma RebaseKeepsPlain(opts: seq<RcOption>, offset: nat)
    requires PlainFlags(opts)
    ensures PlainFlags(Rebase(opts, offset))
  {
    RebaseAt(opts, offset);
  }

  lemma RebaseKeepsReadings(opts: seq<RcOption>, offset: nat, name: string)
    ensures Values(Rebase(opts, offset), name) == Values(opts, name)
    ensures LastBool(Rebase(opts, offset), name) == LastBool(opts, name)
  {
    RebaseAt(opts, offset);
    SameTextSameValues(Rebase(opts, offset), opts, name);
    SameTextSameBool(Rebase(opts, offset), opts, name);
  }

  lemma {:induction false} SameTextSameValues(a: seq<RcOption>, b: seq<RcOption>, name: string)
    requires |a| == |b| && forall i :: 0 <= i < |a| ==> a[i].value == b[i].value
    ensures Values(a, name) == Values(b, name)
  {
    if a != [] {
      SameTextSameValues(a[1..], b[1..], name);
      assert a[1..] != [] ==> a[1..][0].value == b[1..][0].value;
    }
  }

  lemma {:induction false} SameTextSameBool(a: seq<RcOption>, b: seq<RcOption>, name: string)
    requires |a| == |b| && forall i :: 0 <= i < |a| ==> a[i].value == b[i].value
    ensures LastBool(a, name) == LastBool(b, name)
  {
    if a != [] {
      SameTextSameBool(a[..|a| - 1], b[..|b| - 1], name);
    }
  }

  lemma ArgsEndInCommandLine(rc: BazelRC, command: string, platform: string) returns (before: seq<RcOption>)
    ensures E.CommandArgs(OptionsFor(rc, command), platform) == before + CommandLineFlags(rc)
  {
    hide OptionsFor;
    LookupEndsInCommandLine(rc, command);
    before := Flatten([FileFlags(rc)] + NamedSections(rc.options, ["common"] + CommandAncestors(command) + [command]));
    if E.HasPlatformSwitch(OptionsFor(rc, command)) {
      before := [E.PlatformFlag(platform)] + before;
    }
  }

  lemma RebaseSplit(opts: seq<RcOption>, n: nat, offset: nat)
    requires n <= |opts|
    ensures Rebase(opts, offset) == Rebase(opts[..n], offset) + Rebase(opts[n..], offset)
  {
    RebaseConcat(opts[..n], opts[n..], offset);
    assert opts == opts[..n] + opts[n..];
  }

  /** In an overlay, for every command, at the version asked for or else its own, which is the
      upper run command's if it has one, and wherever the options resolve there: a flag that
      the overlay sets in some plain tail of its command line, whatever stands before that,
      reads as the tail's last value. */
  lemma OverlayCommandLineWins(a: BazelRC, b: BazelRC, n: nat, command: string, platform: string,
                               semver: Semver, asked: Option<string>, name: string)
    requires ConsistentRC(a) && ConsistentRC(b)
    requires n <= |CommandLineFlags(b)| && PlainFlags(CommandLineFlags(b)[n..])
    requires ApplicableOptions(Merge(a, b), command, platform, semver, Effective(Merge(a, b), semver, asked)).Applies?
    ensures Effective(Merge(a, b), semver, asked) ==
      if asked.Some? then if semver.isVersion(asked.value) then asked else None
      else if b.version.Some? then b.version
      else a.version
    ensures var version, own := Effective(Merge(a, b), semver, asked), CommandLineFlags(b)[n..];
      var opts := ApplicableOptions(Merge(a, b), command, platform, semver, version).options;
      var all, values := Values(opts, name), Values(own, name);
      && (values != [] ==> all != [] && all[|all| - 1] == values[|values| - 1])
      && (LastBool(own, name).Some? ==> LastBool(opts, name) == LastBool(own, name))
  {
    hide OptionsFor, CommandLineFlags, Merge, E.Expand, Admit, Values, LastBool, Rebase, E.CommandArgs, PlainFlags;
    var m, own := Merge(a, b), CommandLineFlags(b)[n..];
    var version := Effective(m, semver, asked);
    MergedVersion(a, b);
    var head, tail := Rebase(CommandLineFlags(b)[..n], |a.sources|), Rebase(own, |a.sources|);
    var before := ArgsEndInCommandLine(m, command, platform);
    MergedAlways(a, b);
    RebaseSplit(CommandLineFlags(b), n, |a.sources|);
    RebaseKeepsPlain(own, |a.sources|);
    RebaseKeepsReadings(own, |a.sources|, name);
    var base := OptionsFor(m, command);
    var s := E.CommandSetting(m.options, command, m.skip, platform, base);
    var early := before + CommandLineFlags(a) + head;
    assert E.CommandArgs(base, platform) == early + tail;
    var front := PlainTailApplies(s, early, tail, semver, version);
    TailReads(front, tail, name);
  }

  lemma MergedVersion(a: BazelRC, b: BazelRC)
    ensures Merge(a, b).version == if b.version.Some? then b.version else a.version
  {
  }

  lemma TailReads(front: seq<RcOption>, tail: seq<RcOption>, name: string)
    ensures var all, own := Values(front + tail, name), Values(tail, name);
      own != [] ==> all != [] && all[|all| - 1] == own[|own| - 1]
    ensures LastBool(tail, name).Some? ==> LastBool(front + tail, name) == LastBool(tail, name)
  {
    ValuesConcat(front, tail, None, name);
    LastBoolConcat(front, tail, name);
  }

  // ---- Pushing a flag -----------------------------------------------------------------------

  lemma PushKeepsConsistent(rc: BazelRC, value: string, condition: Option<string>)
    requires ConsistentRC(rc)
    ensures ConsistentRC(Push(rc, value, condition))
  {
  }

  lemma PushedAlways(rc: BazelRC, value: string, condition: Option<string>)
    requires ConsistentRC(rc)
    ensures CommandLineFlags(Push(rc, value, condition)) == CommandLineFlags(rc) + [PushedOption(rc, value, condition)]
    ensures FileFlags(Push(rc, value, condition)) == FileFlags(rc)
  {
    hide Filter, ConsistentRC;
    var pushed, o, x :=
      Push(rc, value, condition), PushedOption(rc, value, condition), RawOptions(rc.options, "always");
    AlwaysInRange(rc);
    var more := pushed.sources[|rc.sources|..];
    assert pushed.sources == rc.sources + more;
    MoreSources(rc.sources, more, x);
    FilterSnoc(FromCommandLine(pushed.sources), x, o);
    FilterSnoc(FromFiles(pushed.sources), x, o);
  }

  lemma AlwaysLookup(rc: BazelRC)
    ensures OptionsFor(rc, "always") ==
            FileFlags(rc) + RawOptions(rc.options, "common") + RawOptions(rc.options, "always") + CommandLineFlags(rc)
  {
    hide FileFlags, CommandLineFlags, RawOptions;
    LookupEndsInCommandLine(rc, "always");
    assert ["common"] + CommandAncestors("always") + ["always"] == [] + ["common"] + ["always"];
    NamedSnoc(rc.options, [], "common");
    NamedSnoc(rc.options, [] + ["common"], "always");
    FlattenConcat([FileFlags(rc)], NamedSections(rc.options, [] + ["common"] + ["always"]));
    FlattenSnoc([], FileFlags(rc));
    assert [] + [FileFlags(rc)] == [FileFlags(rc)];
  }

  lemma {:induction false} NamedSnoc(options: Options, keys: seq<string>, key: string)
    ensures Flatten(NamedSections(options, keys + [key])) ==
      Flatten(NamedSections(options, keys)) + RawOptions(options, key)
  {
    if keys == [] {
      assert [] + [key] == [key];
    } else {
      assert (keys + [key])[1..] == keys[1..] + [key];
      NamedSnoc(options, keys[1..], key);
    }
  }

  /** A pushed flag comes last in every lookup, and nothing else moves. Only for `always`
      itself it shows once more, at the end of that section. */
  lemma PushAppends(rc: BazelRC, value: string, condition: Option<string>, command: string)
    requires ConsistentRC(rc)
    ensures ConsistentRC(Push(rc, value, condition))
    ensures var o, sources := PushedOption(rc, value, condition), Push(rc, value, condition).sources;
      && o.value == value && o.command == "always" && o.condition == condition
      && o.sourceIndex < |sources| && sources[o.sourceIndex] == "<command line>"
      && sources == if "<command line>" in rc.sources then rc.sources else rc.sources + ["<command line>"]
    ensures command != "always" ==>
      OptionsFor(Push(rc, value, condition), command) == OptionsFor(rc, command) + [PushedOption(rc, value, condition)]
    ensures var section, o :=
      FileFlags(rc) + RawOptions(rc.options, "common") + RawOptions(rc.options, "always"),
      PushedOption(rc, value, condition);
      && OptionsFor(rc, "always") == section + CommandLineFlags(rc)
      && OptionsFor(Push(rc, value, condition), "always") == section + [o] + CommandLineFlags(rc) + [o]
  {
    hide OptionsFor, FileFlags, CommandLineFlags, ConsistentRC;
    PushKeepsConsistent(rc, value, condition);
    PushedAlways(rc, value, condition);
    AlwaysLookup(rc);
    AlwaysLookup(Push(rc, value, condition));
    if command != "always" {
      PushAppendsElsewhere(rc, value, condition, command);
    }
  }

  lemma PushAppendsElsewhere(rc: BazelRC, value: string, condition: Option<string>, command: string)
    requires ConsistentRC(rc) && command != "always"
    ensures OptionsFor(Push(rc, value, condition), command) ==
      OptionsFor(rc, command) + [PushedOption(rc, value, condition)]
  {
    hide OptionsFor, FileFlags, CommandLineFlags, NamedSections, Flatten, ConsistentRC;
    PushedAlways(rc, value, condition);
    var pushed := Push(rc, value, condition);
    var keys := ["common"] + CommandAncestors(command) + [command];
    OtherSectionsStay(rc.options, pushed.options, keys);
    LookupEndsInCommandLine(rc, command);
    LookupEndsInCommandLine(pushed, command);
  }

  /** A run command that reads no files: for every command but `always` the lookup is
      exactly the flags it was given, in order, as command-line options. */
  lemma BlankHoldsItsFlags(flags: seq<RcOption>, command: string)
    ensures var rc, own := AddFlags(BLANK, flags), FlagOptions(flags, 0);
      && |own| == |flags|
      && (forall i :: 0 <= i < |flags| ==> own[i] == RcOption(flags[i].value, "always", 0, flags[i].condition))
      && rc.sources == (if flags == [] then [] else ["<command line>"])
      && rc.startup == [] && rc.skip == [] && rc.version == None
      && CommandLineFlags(rc) == own && FileFlags(rc) == []
      && OptionsFor(rc, command) == if command == "always" then own + own else own
  {
    hide OptionsFor, FlagOptions, Filter, CommandAncestors;
    var rc := AddFlags(BLANK, flags);
    FlagOptionsAt(flags, 0);
    AddedFlagsAreCommandLine(BLANK, flags);
    if command == "always" {
      AlwaysLookup(rc);
    } else {
      var keys := ["common"] + CommandAncestors(command) + [command];
      NoAlways(command);
      LookupEndsInCommandLine(rc, command);
      NothingNamed(rc.options, keys);
      FlattenConcat([FileFlags(rc)], NamedSections(rc.options, keys));
      FlattenSnoc([], FileFlags(rc));
      assert [] + [FileFlags(rc)] == [FileFlags(rc)];
    }
  }

  lemma NoAlways(command: string)
    requires command != "always"
    ensures "always" !in ["common"] + CommandAncestors(command) + [command]
  {
  }

  lemma {:induction false} NothingNamed(options: Options, keys: seq<string>)
    requires forall key :: key in keys ==> RawOptions(options, key) == []
    ensures Flatten(NamedSections(options, keys)) == []
  {
    if keys != [] {
      assert keys[0] in keys && NamedSections(options, keys)[1..] == NamedSections(options, keys[1..]);
      NothingNamed(options, keys[1..]);
    }
  }

  lemma {:induction false} OtherSectionsStay(options: Options, options': Options, keys: seq<string>)
    requires "always" !in keys && forall key :: key != "always" ==>
      RawOptions(options, key) == RawOptions(options', key)
    ensures NamedSections(options, keys) == NamedSections(options', keys)
  {
    if keys != [] {
      OtherSectionsStay(options, options', keys[1..]);
      assert keys[0] in keys;
    }
  }

  // ---- Loading ------------------------------------------------------------------------------

  /** A set of files loads exactly when each of them parses, and what is loaded is consistent. */
  lemma {:induction false} LoadsIffEachParses(fs: Parser.FileSystem, root: string, files: seq<string>)
    ensures var all := LoadFiles(fs, root, files);
      && PT.Consistent(all.options, all.sources)
      && (all.error.None? <==> forall path :: path in files ==> Parser.Inline(fs, root, path, []).error.None?)
  {
    hide Parser.Inline, Parser.Absorb;
    if files != [] {
      var n := |files| - 1;
      var before := LoadFiles(fs, root, files[..n]);
      LoadsIffEachParses(fs, root, files[..n]);
      PT.ParsingKeepsConsistent(fs, root, files[n], [], before.options, before.sources, None);
      assert files == files[..n] + [files[n]];
    }
  }

  lemma AddedFlagsKeepConsistent(rc: BazelRC, flags: seq<RcOption>)
    requires ConsistentRC(rc)
    ensures ConsistentRC(AddFlags(rc, flags))
  {
    hide FlagOptions;
    FlagOptionsAt(flags, |rc.sources|);
  }

  lemma SourcesDecide(sources: seq<string>, opts: seq<RcOption>, cli: bool)
    requires forall o :: o in opts ==> IsCommandLine(sources, o) == cli
    ensures Filter(FromCommandLine(sources), opts) == if cli then opts else []
    ensures Filter(FromFiles(sources), opts) == if cli then [] else opts
  {
    if cli {
      FilterAll(FromCommandLine(sources), opts);
      NoneFilter(FromFiles(sources), opts);
    } else {
      NoneFilter(FromCommandLine(sources), opts);
      FilterAll(FromFiles(sources), opts);
    }
  }

  /** Command-line flags keep a run command consistent, and become its command line. */
  lemma AddedFlagsAreCommandLine(rc: BazelRC, flags: seq<RcOption>)
    requires ConsistentRC(rc) && COMMAND_LINE !in rc.sources
    ensures ConsistentRC(AddFlags(rc, flags))
    ensures CommandLineFlags(AddFlags(rc, flags)) == FlagOptions(flags, |rc.sources|)
    ensures FileFlags(AddFlags(rc, flags)) == RawOptions(rc.options, "always")
  {
    hide Filter, FlagOptions, ConsistentRC, FromCommandLine, FromFiles;
    AddedFlagsKeepConsistent(rc, flags);
    AlwaysInRange(rc);
    FlagOptionsAt(flags, |rc.sources|);
    var sources, x, y :=
      AddFlags(rc, flags).sources, RawOptions(rc.options, "always"), FlagOptions(flags, |rc.sources|);
    assert forall o :: o in x ==> rc.sources[o.sourceIndex] in rc.sources;
    SourcesDecide(sources, x, false);
    if flags != [] {
      SourcesDecide(sources, y, true);
      FilterConcat(FromCommandLine(sources), x, y);
      FilterConcat(FromFiles(sources), x, y);
    }
  }

  lemma {:induction false} FlagOptionsAt(flags: seq<RcOption>, source: nat)
    ensures |FlagOptions(flags, source)| == |flags|
    ensures forall i :: 0 <= i < |flags| ==>
      FlagOptions(flags, source)[i] == flags[i].(sourceIndex := source, command := "always")
  {
    if flags != [] {
      FlagOptionsAt(flags[..|flags| - 1], source);
    }
  }

  // ---- Where command-line options stand ---------------------------------------------------------

  /** Options from the command line stand in `always` only. */
  ghost predicate CommandLineInAlways(rc: BazelRC) {
    forall key, o :: o in RawOptions(rc.options, key) && IsCommandLine(rc.sources, o) ==> key == "always"
  }

  lemma {:induction false} VisitsAreCanonical(fs: Parser.FileSystem, root: string, path: string, stack: seq<string>)
    ensures forall file :: file in Parser.Inline(fs, root, path, stack).visits ==> file in fs.canonical.Values
    decreases fs.canonical.Values - Elements(stack), 1, 0
  {
    if path in fs.canonical {
      var file := fs.canonical[path];
      if file !in stack && file in fs.contents {
        assert file in fs.canonical.Values - Elements(stack);
        assert file !in fs.canonical.Values - Elements(stack + [file]);
        LineVisitsAreCanonical(fs, root, file, Parser.FileDirectives(fs, root, file), stack + [file]);
      }
    }
  }

  lemma {:induction false} LineVisitsAreCanonical(fs: Parser.FileSystem, root: string, file: string,
                                                  ds: seq<Parser.Directive>, stack: seq<string>)
    requires file in fs.canonical.Values
    ensures forall v :: v in Parser.InlineAll(fs, root, file, ds, stack).visits ==> v in fs.canonical.Values
    decreases fs.canonical.Values - Elements(stack), 2, |ds|
  {
    if ds != [] {
      var d := ds[|ds| - 1];
      LineVisitsAreCanonical(fs, root, file, ds[..|ds| - 1], stack);
      if d.Include? && d.path in fs.canonical {
        VisitsAreCanonical(fs, root, d.path, stack);
      }
    }
  }

  lemma {:induction false} LoadedSourcesAreCanonical(fs: Parser.FileSystem, root: string, files: seq<string>)
    ensures forall source :: source in LoadFiles(fs, root, files).sources ==> source in fs.canonical.Values
  {
    hide Parser.Inline;
    if files != [] {
      LoadedSourcesAreCanonical(fs, root, files[..|files| - 1]);
      VisitsAreCanonical(fs, root, files[|files| - 1], []);
    }
  }

  lemma StaysInAlways(rc: BazelRC, more: seq<string>, key: string, o: RcOption)
    requires ConsistentRC(rc) && CommandLineInAlways(rc) && o in RawOptions(rc.options, key)
    ensures IsCommandLine(rc.sources + more, o) ==> key == "always"
  {
    OptionInRange(rc, key, o);
    assert IsCommandLine(rc.sources + more, o) <==> IsCommandLine(rc.sources, o);
  }

  lemma AddFlagsInAlways(rc: BazelRC, flags: seq<RcOption>)
    requires ConsistentRC(rc) && CommandLineInAlways(rc)
    ensures CommandLineInAlways(AddFlags(rc, flags))
  {
    hide FlagOptions;
    var added := AddFlags(rc, flags);
    if flags != [] {
      forall key, o | o in RawOptions(added.options, key) && IsCommandLine(added.sources, o) ensures key == "always" {
        if key != "always" {
          StaysInAlways(rc, [COMMAND_LINE], key, o);
        }
      }
    }
  }

  lemma PushInAlways(rc: BazelRC, value: string, condition: Option<string>)
    requires ConsistentRC(rc) && CommandLineInAlways(rc)
    ensures CommandLineInAlways(Push(rc, value, condition))
  {
    var pushed := Push(rc, value, condition);
    forall key, o | o in RawOptions(pushed.options, key) && IsCommandLine(pushed.sources, o) ensures key == "always" {
      if key != "always" {
        OptionInRange(rc, key, o);
      }
    }
  }

  lemma OptionInRange(rc: BazelRC, key: string, o: RcOption)
    requires ConsistentRC(rc) && o in RawOptions(rc.options, key)
    ensures o.command == key && o.sourceIndex < |rc.sources|
  {
    var i :| 0 <= i < |RawOptions(rc.options, key)| && RawOptions(rc.options, key)[i] == o;
  }

  lemma MergeInAlways(a: BazelRC, b: BazelRC)
    requires ConsistentRC(a) && CommandLineInAlways(a) && ConsistentRC(b) && CommandLineInAlways(b)
    ensures CommandLineInAlways(Merge(a, b))
  {
    hide Merge, CommandLineInAlways;
    var m := Merge(a, b);
    forall key, o | o in RawOptions(m.options, key) && IsCommandLine(m.sources, o) ensures key == "always" {
      var i :| 0 <= i < |RawOptions(m.options, key)| && RawOptions(m.options, key)[i] == o;
      MergedInAlways(a, b, key, i);
    }
    assert CommandLineInAlways(m) by { InAlways(m); }
  }

  lemma InAlways(rc: BazelRC)
    requires forall key, o :: o in RawOptions(rc.options, key) && IsCommandLine(rc.sources, o) ==> key == "always"
    ensures CommandLineInAlways(rc)
  {
  }

  lemma MergedInAlways(a: BazelRC, b: BazelRC, key: string, i: nat)
    requires ConsistentRC(a) && CommandLineInAlways(a) && ConsistentRC(b) && CommandLineInAlways(b)
    requires i < |RawOptions(Merge(a, b).options, key)|
      && IsCommandLine(Merge(a, b).sources, RawOptions(Merge(a, b).options, key)[i])
    ensures key == "always"
  {
    hide Merge, RawOptions, ConsistentRC;
    var mine, theirs, o :=
      RawOptions(a.options, key), RawOptions(b.options, key), RawOptions(Merge(a, b).options, key)[i];
    MergedOption(a, b, key, i);
    MergedSources(a, b);
    if i < |mine| {
      SectionInRange(a, key, i);
      assert mine[i] in mine && IsCommandLine(a.sources, mine[i]);
    } else {
      SectionInRange(b, key, i - |mine|);
      assert theirs[i - |mine|] in theirs && IsCommandLine(b.sources, theirs[i - |mine|]);
    }
  }

  lemma SectionInRange(rc: BazelRC, key: string, i: nat)
    requires ConsistentRC(rc) && i < |RawOptions(rc.options, key)|
    ensures RawOptions(rc.options, key)[i].sourceIndex < |rc.sources|
  {
  }

  /** Every way in which the program makes a run command. */
  datatype Making =
    | NewFrom(fs: Parser.FileSystem, root: string, files: seq<string>, startup: seq<string>, flags: seq<RcOption>)
    | BlankWith(flags: seq<RcOption>)
    | Pushed(made: Making, value: string, condition: Option<string>)
    | Merged(first: Making, second: Making)
    | Configured(made: Making, skip: seq<string>, startup: seq<string>, version: Option<string>)

  function Made(m: Making): BazelRC {
    match m
    case NewFrom(fs, root, files, startup, flags) =>
      var all := LoadFiles(fs, root, files);
      AddFlags(BazelRC(all.options, all.sources, [], startup, None), flags)
    case BlankWith(flags) => AddFlags(BLANK, flags)
    case Pushed(made, value, condition) => Push(Made(made), value, condition)
    case Merged(first, second) => Merge(Made(first), Made(second))
    case Configured(made, skip, startup, version) => Made(made).(skip := skip, startup := startup, version := version)
  }

  /** No file that is read is called like the command line. */
  predicate ReadsRealFiles(m: Making) {
    match m
    case NewFrom(fs, _, _, _, _) => COMMAND_LINE !in fs.canonical.Values
    case BlankWith(_) => true
    case Pushed(made, _, _) => ReadsRealFiles(made)
    case Merged(first, second) => ReadsRealFiles(first) && ReadsRealFiles(second)
    case Configured(made, _, _, _) => ReadsRealFiles(made)
  }

  /** However a run command is made, its options stand in their own sections with sources
      in range, and those from the command line stand in `always`. */
  lemma {:induction false} EveryRunCommandIsConsistent(m: Making)
    requires ReadsRealFiles(m)
    ensures ConsistentRC(Made(m)) && CommandLineInAlways(Made(m))
  {
    hide Merge, Push, AddFlags, LoadFiles, CommandLineInAlways;
    match m {
      case NewFrom(fs, root, files, startup, flags) =>
        LoadedIsConsistent(fs, root, files, startup);
        var all := LoadFiles(fs, root, files);
        AddedFlagsKeepConsistent(BazelRC(all.options, all.sources, [], startup, None), flags);
        AddFlagsInAlways(BazelRC(all.options, all.sources, [], startup, None), flags);
      case BlankWith(flags) =>
        InAlways(BLANK);
        AddedFlagsKeepConsistent(BLANK, flags);
        AddFlagsInAlways(BLANK, flags);
      case Pushed(made, value, condition) =>
        EveryRunCommandIsConsistent(made);
        PushKeepsConsistent(Made(made), value, condition);
        PushInAlways(Made(made), value, condition);
      case Merged(first, second) =>
        EveryRunCommandIsConsistent(first);
        EveryRunCommandIsConsistent(second);
        MergeKeepsConsistent(Made(first), Made(second));
        MergeInAlways(Made(first), Made(second));
      case Configured(made, skip, startup, version) =>
        EveryRunCommandIsConsistent(made);
        SettingsStay(Made(made), skip, startup, version);
    }
  }

  lemma LoadedIsConsistent(fs: Parser.FileSystem, root: string, files: seq<string>, startup: seq<string>)
    requires COMMAND_LINE !in fs.canonical.Values
    ensures var all := LoadFiles(fs, root, files);
      var rc := BazelRC(all.options, all.sources, [], startup, None);
      ConsistentRC(rc) && CommandLineInAlways(rc)
  {
    hide LoadFiles;
    LoadsIffEachParses(fs, root, files);
    LoadedSourcesAreCanonical(fs, root, files);
    var all := LoadFiles(fs, root, files);
    var rc := BazelRC(all.options, all.sources, [], startup, None);
    assert forall i :: 0 <= i < |rc.sources| ==> rc.sources[i] in rc.sources && rc.sources[i] != COMMAND_LINE;
    InAlways(rc);
  }

  lemma SettingsStay(rc: BazelRC, skip: seq<string>, startup: seq<string>, version: Option<string>)
    requires ConsistentRC(rc) && CommandLineInAlways(rc)
    ensures var made := rc.(skip := skip, startup := startup, version := version);
      ConsistentRC(made) && CommandLineInAlways(made)
  {
  }
}
